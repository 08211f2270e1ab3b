/**
 Gaps of an index: `Gap` of `src/transaction/txn_defs.h` and the `PredicateManager` that builds them. Column values
 are taken from a dense order without end points.
 */
module Gaps {

  datatype CompOp = Invalid | EQ | NE | LT | GT | LE | GE

  datatype Cond = Cond(op: CompOp, val: real)

  /** The bounds of one column. */
  datatype Bounds = Bounds(left: Cond, right: Cond)

  type Gap = seq<Bounds>
  type Key = seq<real>

  predicate Satisfies(x: real, op: CompOp, val: real) {
    match op
    case Invalid => true
    case EQ => x == val
    case NE => x != val
    case LT => x < val
    case GT => x > val
    case LE => x <= val
    case GE => x >= val
  }

  predicate Inside(x: real, b: Bounds) {
    Satisfies(x, b.left.op, b.left.val) && Satisfies(x, b.right.op, b.right.val)
  }

  ghost predicate InGap(g: Gap, key: Key) {
    |key| == |g| && forall i :: 0 <= i < |g| ==> Inside(key[i], g[i])
  }

  /** What `addPredicate` leaves in a column: lower bounds on the left, upper bounds on the right. */
  predicate BuiltBounds(b: Bounds) {
    b.left.op in {Invalid, GT, GE, EQ} && b.right.op in {Invalid, LT, LE, EQ}
  }

  ghost predicate Built(g: Gap) {
    forall i :: 0 <= i < |g| ==> BuiltBounds(g[i])
  }

  /** An equality takes both sides of its column. */
  predicate WholeBounds(b: Bounds) {
    BuiltBounds(b) && (b.left.op == EQ <==> b.right.op == EQ) && (b.left.op == EQ ==> b.left.val == b.right.val)
  }

  ghost predicate Whole(g: Gap) {
    forall i :: 0 <= i < |g| ==> WholeBounds(g[i])
  }

  method IsInGap(g: Gap, key: Key) returns (inside: bool)
    requires |key| == |g|
    ensures inside <==> InGap(g, key)
  {
    for i := 0 to |g|
      invariant forall j :: 0 <= j < i ==> Satisfies(key[j], g[j].left.op, g[j].left.val)
    {
      if g[i].left.op != Invalid && !Satisfies(key[i], g[i].left.op, g[i].left.val) {
        assert !Inside(key[i], g[i]);
        return false;
      }
    }
    for i := 0 to |g|
      invariant forall j :: 0 <= j < i ==> Satisfies(key[j], g[j].right.op, g[j].right.val)
    {
      if g[i].right.op != Invalid && !Satisfies(key[i], g[i].right.op, g[i].right.val) {
        assert !Inside(key[i], g[i]);
        return false;
      }
    }
    return true;
  }

  /** The lower bound lies above the upper bound. */
  predicate Above(lower: Cond, upper: Cond) {
    && lower.op != Invalid && upper.op != Invalid
    && (lower.val > upper.val || (lower.val == upper.val && (lower.op == GT || upper.op == LT)))
  }

  predicate Overlap(a: Bounds, b: Bounds) {
    !Above(a.left, b.right) && !Above(b.left, a.right)
  }

  ghost predicate Coincide(g: Gap, h: Gap) {
    |g| == |h| && forall i :: 0 <= i < |g| ==> Overlap(g[i], h[i])
  }

  method IsCoincide(g: Gap, h: Gap) returns (meet: bool)
    requires |g| == |h|
    ensures meet <==> Coincide(g, h)
  {
    for i := 0 to |g|
      invariant forall j :: 0 <= j < i ==> !Above(g[j].left, h[j].right)
    {
      if Above(g[i].left, h[i].right) {
        assert !Overlap(g[i], h[i]);
        return false;
      }
    }
    for i := 0 to |g|
      invariant forall j :: 0 <= j < i ==> !Above(h[j].left, g[j].right)
    {
      if Above(h[i].left, g[i].right) {
        assert !Overlap(g[i], h[i]);
        return false;
      }
    }
    return true;
  }

  lemma {:induction false} CoincideSymmetric(g: Gap, h: Gap)
    ensures Coincide(g, h) <==> Coincide(h, g)
  {
    if |g| == |h| {
      forall i | 0 <= i < |g| ensures Overlap(g[i], h[i]) <==> Overlap(h[i], g[i]) {
      }
    }
  }

  /** Gaps that share a key coincide. */
  lemma {:induction false} SharedKeyCoincides(g: Gap, h: Gap, key: Key)
    requires Built(g) && Built(h) && InGap(g, key) && InGap(h, key)
    ensures Coincide(g, h)
  {
    forall i | 0 <= i < |g| ensures Overlap(g[i], h[i]) {
      assert Inside(key[i], g[i]) && Inside(key[i], h[i]) && BuiltBounds(g[i]) && BuiltBounds(h[i]);
    }
  }

  // ----- the converse -----

  predicate Lower(c: Cond) {
    c.op in {Invalid, GT, GE, EQ}
  }

  predicate Upper(c: Cond) {
    c.op in {Invalid, LT, LE, EQ}
  }

  /** A value between a lower and an upper bound. */
  function Between(l: Cond, u: Cond): real {
    if l.op == Invalid && u.op == Invalid then 0.0
    else if l.op == Invalid then u.val - 1.0
    else if u.op == Invalid then l.val + 1.0
    else (l.val + u.val) / 2.0
  }

  /** The stronger of two lower bounds. */
  function Tighter(a: Cond, b: Cond): Cond {
    if a.op == Invalid then b
    else if b.op == Invalid then a
    else if a.val > b.val || (a.val == b.val && a.op == GT) then a else b
  }

  function TighterUpper(a: Cond, b: Cond): Cond {
    if a.op == Invalid then b
    else if b.op == Invalid then a
    else if a.val < b.val || (a.val == b.val && a.op == LT) then a else b
  }

  predicate SatLower(x: real, c: Cond) {
    c.op == Invalid || x > c.val || (x == c.val && c.op != GT)
  }

  predicate SatUpper(x: real, c: Cond) {
    c.op == Invalid || x < c.val || (x == c.val && c.op != LT)
  }

  lemma {:induction false} BetweenFits(l: Cond, u: Cond)
    requires Lower(l) && Upper(u) && !Above(l, u)
    ensures SatLower(Between(l, u), l) && SatUpper(Between(l, u), u)
  {
  }

  lemma {:induction false} TighterImplies(a: Cond, b: Cond, x: real)
    requires Lower(a) && Lower(b)
    ensures Lower(Tighter(a, b)) && (SatLower(x, Tighter(a, b)) ==> SatLower(x, a) && SatLower(x, b))
    ensures Tighter(a, b) == a || Tighter(a, b) == b
  {
  }

  lemma {:induction false} TighterUpperImplies(a: Cond, b: Cond, x: real)
    requires Upper(a) && Upper(b)
    ensures Upper(TighterUpper(a, b)) && (SatUpper(x, TighterUpper(a, b)) ==> SatUpper(x, a) && SatUpper(x, b))
    ensures TighterUpper(a, b) == a || TighterUpper(a, b) == b
  {
  }

  /** As intervals, the bounds of a column say what the predicates say. */
  lemma {:induction false} InsideIsInterval(x: real, b: Bounds)
    requires WholeBounds(b)
    ensures Inside(x, b) <==> SatLower(x, b.left) && SatUpper(x, b.right)
  {
  }

  /** A value common to two overlapping columns. */
  function Common(a: Bounds, b: Bounds): real {
    Between(Tighter(a.left, b.left), TighterUpper(a.right, b.right))
  }

  lemma {:induction false} OverlapShares(a: Bounds, b: Bounds)
    requires WholeBounds(a) && WholeBounds(b) && Overlap(a, b) && !Above(a.left, a.right) && !Above(b.left, b.right)
    ensures Inside(Common(a, b), a) && Inside(Common(a, b), b)
  {
    hide Between, Inside, SatLower, SatUpper;
    var x := Common(a, b);
    TighterImplies(a.left, b.left, x);
    TighterUpperImplies(a.right, b.right, x);
    BetweenFits(Tighter(a.left, b.left), TighterUpper(a.right, b.right));
    InsideIsInterval(x, a);
    InsideIsInterval(x, b);
  }

  lemma {:induction false} NonEmptyColumn(b: Bounds, x: real)
    requires WholeBounds(b) && Inside(x, b)
    ensures !Above(b.left, b.right)
  {
  }

  /** Two gaps that are not empty coincide if and only if they share a key. */
  lemma {:induction false} CoincideExact(g: Gap, h: Gap, inG: Key, inH: Key)
    requires Whole(g) && Whole(h) && |g| == |h| && InGap(g, inG) && InGap(h, inH)
    ensures Coincide(g, h) <==> exists key :: InGap(g, key) && InGap(h, key)
  {
    hide Inside, WholeBounds, Overlap, Common;
    WholeBuilt(g);
    WholeBuilt(h);
    if key :| InGap(g, key) && InGap(h, key) {
      SharedKeyCoincides(g, h, key);
    }
    if Coincide(g, h) {
      var key := seq(|g|, i requires 0 <= i < |g| => Common(g[i], h[i]));
      forall i | 0 <= i < |g| ensures Inside(key[i], g[i]) && Inside(key[i], h[i]) {
        NonEmptyColumn(g[i], inG[i]);
        NonEmptyColumn(h[i], inH[i]);
        OverlapShares(g[i], h[i]);
      }
      assert InGap(g, key) && InGap(h, key);
    }
  }

  lemma {:induction false} WholeBuilt(g: Gap)
    requires Whole(g)
    ensures Built(g)
  {
  }

  /** The gap of one key. */
  function Point(key: Key): (g: Gap)
    ensures |g| == |key|
  {
    seq(|key|, i requires 0 <= i < |key| => Bounds(Cond(EQ, key[i]), Cond(EQ, key[i])))
  }

  /** A point coincides with a gap, empty or not, exactly if it lies in it. */
  lemma {:induction false} PointExact(key: Key, g: Gap)
    requires Whole(g) && |key| == |g|
    ensures Coincide(Point(key), g) <==> InGap(g, key)
  {
    forall i | 0 <= i < |g| ensures Overlap(Point(key)[i], g[i]) <==> Inside(key[i], g[i]) {
      PointColumn(key[i], g[i]);
    }
  }

  lemma {:induction false} PointColumn(x: real, b: Bounds)
    requires WholeBounds(b)
    ensures Overlap(Bounds(Cond(EQ, x), Cond(EQ, x)), b) <==> Inside(x, b)
  {
  }

  // ----- how gaps are built -----

  /** The side of a column that a predicate takes is free. */
  predicate SidesFree(b: Bounds, op: CompOp) {
    && (op in {GT, GE, EQ} ==> b.left.op == Invalid)
    && (op in {LT, LE, EQ} ==> b.right.op == Invalid)
  }

  class PredicateManager {
    var conds: Gap

    constructor (columns: nat)
      ensures Whole(conds) && |conds| == columns && forall key :: |key| == columns ==> InGap(conds, key)
    {
      conds := seq(columns, _ => Bounds(Cond(Invalid, 0.0), Cond(Invalid, 0.0)));
    }

    /** Adds a predicate on column `col`; one that is not in the index is refused, `!=` is not recorded. */
    method AddPredicate(col: int, op: CompOp, val: real) returns (ok: bool)
      requires Built(conds) && op != Invalid
      modifies this
      ensures Built(conds) && |conds| == |old(conds)| && (ok <==> 0 <= col < |conds|)
      ensures conds == if ok then old(conds)[col := WithPredicate(old(conds)[col], op, val)] else old(conds)
      ensures ok && Whole(old(conds)) && SidesFree(old(conds)[col], op) ==> Whole(conds)
      ensures ok && SidesFree(old(conds)[col], op) ==>
                forall key ::
                  InGap(conds, key) <==> InGap(old(conds), key) && (op == NE || Satisfies(key[col], op, val))
    {
      hide Inside, Satisfies;
      if col < 0 || col >= |conds| {
        return false;
      }
      var b := conds[col];
      if op == GT || op == GE || op == EQ {
        b := b.(left := Cond(op, val));
      }
      if op == LT || op == LE || op == EQ {
        b := b.(right := Cond(op, val));
      }
      Added(conds, col, op, val, b);
      conds := conds[col := b];
      return true;
    }
  }

  function WithPredicate(b: Bounds, op: CompOp, val: real): Bounds {
    Bounds(if op in {GT, GE, EQ} then Cond(op, val) else b.left, if op in {LT, LE, EQ} then Cond(op, val) else b.right)
  }

  lemma {:induction false} AddedColumn(b: Bounds, op: CompOp, val: real, x: real)
    requires SidesFree(b, op) && op != Invalid
    ensures Inside(x, WithPredicate(b, op, val)) <==> Inside(x, b) && (op == NE || Satisfies(x, op, val))
  {
  }

  lemma {:induction false} Added(g: Gap, col: nat, op: CompOp, val: real, b: Bounds)
    requires col < |g| && op != Invalid && b == WithPredicate(g[col], op, val)
    ensures SidesFree(g[col], op) ==> forall key :: InGap(g[col := b], key) <==>
            InGap(g, key) && (op == NE || Satisfies(key[col], op, val))
  {
    hide Inside, Satisfies, WithPredicate;
    if SidesFree(g[col], op) {
      forall key ensures InGap(g[col := b], key) <==> InGap(g, key) && (op == NE || Satisfies(key[col], op, val)) {
        if |key| == |g| {
          AddedColumn(g[col], op, val, key[col]);
          assert InGap(g[col := b], key) ==> Inside(key[col], g[col := b][col]);
          assert forall i :: 0 <= i < |g| && i != col ==> g[col := b][i] == g[i];
        }
      }
    }
  }
}
