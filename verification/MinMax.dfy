/**
 * The minimum and maximum that an extent keeps of its column values, how the ranges of several
 * extents are widened into one, and how partitions are chosen by value from the widened ranges.
 */
module MinMax {
  import opened MachineInts

  // How a column's values are compared.
  datatype Order = Signed64 | Unsigned64 | Signed128 {
    function Least(): int {
      match this
      case Signed64 => -TWO63
      case Unsigned64 => 0
      case Signed128 => -TWO127
    }

    function Greatest(): int {
      match this
      case Signed64 => TWO63 - 1
      case Unsigned64 => TWO64 - 1
      case Signed128 => TWO127 - 1
    }
  }

  // An unsigned column keeps its values in the same signed 64-bit words.
  function AsUnsigned(x: int): (u: int)
    requires -TWO63 <= x < TWO63
    ensures 0 <= u < TWO64
    ensures u == x || u == x + TWO64
  {
    if x < 0 then x + TWO64 else x
  }

  datatype Bounds = Bounds(min: int, max: int, int128Min: int, int128Max: int) {
    predicate Valid() {
      && -TWO63 <= min < TWO63 && -TWO63 <= max < TWO63
      && -TWO127 <= int128Min < TWO127 && -TWO127 <= int128Max < TWO127
    }

    function Lo(o: Order): (x: int)
      requires Valid()
      ensures o.Least() <= x <= o.Greatest()
    {
      match o
      case Signed64 => min
      case Unsigned64 => AsUnsigned(min)
      case Signed128 => int128Min
    }

    function Hi(o: Order): (x: int)
      requires Valid()
      ensures o.Least() <= x <= o.Greatest()
    {
      match o
      case Signed64 => max
      case Unsigned64 => AsUnsigned(max)
      case Signed128 => int128Max
    }

    // No values: the range that widening never feels.
    predicate Empty(o: Order)
      requires Valid()
    {
      Lo(o) == o.Greatest() && Hi(o) == o.Least()
    }

    // A range is either proper or the empty one.
    predicate Proper(o: Order)
      requires Valid()
    {
      Lo(o) <= Hi(o) || Empty(o)
    }

    predicate Has(o: Order, x: int)
      requires Valid()
    {
      Lo(o) <= x <= Hi(o)
    }

    // The fields the order does not look at.
    predicate SameElsewhere(o: Order, other: Bounds) {
      match o
      case Signed128 => min == other.min && max == other.max
      case _ => int128Min == other.int128Min && int128Max == other.int128Max
    }
  }

  type ValidBounds = b: Bounds | b.Valid() witness Bounds(0, 0, 0, 0)

  // invalidSignedRange and invalidUnsignedRange
  function InvalidRange(o: Order): (b: ValidBounds)
    ensures b.Empty(o) && b.Empty(Signed128)
    ensures forall x :: !b.Has(o, x)
  {
    match o
    case Unsigned64 => Bounds(-1, 0, TWO127 - 1, -TWO127)
    case _ => Bounds(TWO63 - 1, -TWO63, TWO127 - 1, -TWO127)
  }

  // isRangeInvalid
  predicate IsRangeInvalid(b: ValidBounds, isUnsigned: bool, width: nat) {
    if width > 8 then
      if isUnsigned then b.int128Min % TWO128 > b.int128Max % TWO128 else b.int128Min > b.int128Max
    else
      if isUnsigned then AsUnsigned(b.min) > AsUnsigned(b.max) else b.min > b.max
  }

  // A range is reported invalid exactly when no value lies in it, for every column that is signed or no
  // wider than 8 bytes.
  lemma InvalidIsEmpty(b: ValidBounds, o: Order, width: nat)
    requires o.Signed128? <==> width > 8
    ensures IsRangeInvalid(b, o.Unsigned64?, width) <==> !exists x :: b.Has(o, x)
  {
    if b.Lo(o) <= b.Hi(o) {
      assert b.Has(o, b.Lo(o));
    }
  }

  // The wide ends of an unsigned column are signed numbers compared as unsigned ones: that agrees exactly
  // when they have the same sign.
  lemma WideUnsignedAgrees(b: ValidBounds, width: nat)
    requires width > 8
    ensures (IsRangeInvalid(b, true, width) <==> !exists x :: b.Has(Signed128, x))
            <==> (b.int128Min < 0 <==> b.int128Max < 0)
  {
    InvalidIsEmpty(b, Signed128, 16);
  }

  // The invalid range of unsigned columns itself is reported as valid for the wide ones.
  lemma InvalidLooksValid(width: nat)
    requires width > 8
    ensures var b := InvalidRange(Unsigned64);
            !IsRangeInvalid(b, true, width) && forall x :: !b.Has(Signed128, x)
  {
    WideUnsignedAgrees(InvalidRange(Unsigned64), width);
  }

  // ---------- widening ----------

  // What widening two ranges should give: the smaller minimum and the larger maximum.
  ghost predicate IsHull(o: Order, a: ValidBounds, b: ValidBounds, r: ValidBounds) {
    && r.Lo(o) == (if b.Lo(o) < a.Lo(o) then b.Lo(o) else a.Lo(o))
    && r.Hi(o) == (if b.Hi(o) > a.Hi(o) then b.Hi(o) else a.Hi(o))
    && r.SameElsewhere(o, a)
  }

  // The class with its in-place widening methods.
  class MinMaxInfo {
    var min: int
    var max: int
    var int128Min: int
    var int128Max: int

    ghost predicate Valid()
      reads this
    {
      Bounds(min, max, int128Min, int128Max).Valid()
    }

    function Value(): (b: ValidBounds)
      requires Valid()
      reads this
    {
      Bounds(min, max, int128Min, int128Max)
    }

    constructor (b: ValidBounds)
      ensures Valid() && Value() == b
    {
      min, max, int128Min, int128Max := b.min, b.max, b.int128Min, b.int128Max;
    }

    method WidenSInt64(partInfo: ValidBounds)
      requires Valid()
      modifies this
      ensures Valid() && IsHull(Signed64, old(Value()), partInfo, Value())
    {
      min := if partInfo.min < min then partInfo.min else min;
      max := if partInfo.max > max then partInfo.max else max;
    }

    method WidenUInt64(partInfo: ValidBounds)
      requires Valid()
      modifies this
      ensures Valid() && IsHull(Unsigned64, old(Value()), partInfo, Value())
    {
      min := if AsUnsigned(partInfo.min) < AsUnsigned(min) then partInfo.min else min;
      max := if AsUnsigned(partInfo.max) > AsUnsigned(max) then partInfo.max else max;
    }

    method WidenSInt128(partInfo: ValidBounds)
      requires Valid()
      modifies this
      ensures Valid() && IsHull(Signed128, old(Value()), partInfo, Value())
    {
      int128Min := if partInfo.int128Min < int128Min then partInfo.int128Min else int128Min;
      int128Max := if partInfo.int128Max > int128Max then partInfo.int128Max else int128Max;
    }
  }

  // widenMinMaxInfo: a copy of one range, widened by the other.
  method WidenMinMaxInfo(o: Order, a: ValidBounds, b: ValidBounds) returns (r: ValidBounds)
    ensures r == Widened(o, a, b)
  {
    var tmp := new MinMaxInfo(a);
    match o {
      case Signed64 => tmp.WidenSInt64(b);
      case Unsigned64 => tmp.WidenUInt64(b);
      case Signed128 => tmp.WidenSInt128(b);
    }
    r := tmp.Value();
    HullIsUnique(o, a, b, r);
  }

  function Widened(o: Order, a: ValidBounds, b: ValidBounds): (r: ValidBounds)
    ensures IsHull(o, a, b, r)
  {
    match o
    case Signed64 =>
      a.(min := if b.min < a.min then b.min else a.min, max := if b.max > a.max then b.max else a.max)
    case Unsigned64 =>
      a.(min := if AsUnsigned(b.min) < AsUnsigned(a.min) then b.min else a.min,
         max := if AsUnsigned(b.max) > AsUnsigned(a.max) then b.max else a.max)
    case Signed128 =>
      a.(int128Min := if b.int128Min < a.int128Min then b.int128Min else a.int128Min,
         int128Max := if b.int128Max > a.int128Max then b.int128Max else a.int128Max)
  }

  // The order's ends and the untouched fields determine the stored words.
  lemma SameWords(o: Order, a: ValidBounds, b: ValidBounds)
    requires a.Lo(o) == b.Lo(o) && a.Hi(o) == b.Hi(o) && a.SameElsewhere(o, b)
    ensures a == b
  {
  }

  lemma HullIsUnique(o: Order, a: ValidBounds, b: ValidBounds, r: ValidBounds)
    requires IsHull(o, a, b, r)
    ensures r == Widened(o, a, b)
  {
    SameWords(o, r, Widened(o, a, b));
  }

  function Fold(o: Order, start: ValidBounds, extents: seq<ValidBounds>): (r: ValidBounds) {
    if extents == [] then start
    else Widened(o, Fold(o, start, extents[..|extents| - 1]), extents[|extents| - 1])
  }

  // A range whose ends are attained bounds of the given ranges.
  ghost predicate Spans(o: Order, f: ValidBounds, all: seq<ValidBounds>) {
    && (forall e :: e in all ==> f.Lo(o) <= e.Lo(o) && e.Hi(o) <= f.Hi(o))
    && (exists e :: e in all && f.Lo(o) == e.Lo(o))
    && (exists e :: e in all && f.Hi(o) == e.Hi(o))
  }

  lemma SpansOneMore(o: Order, f: ValidBounds, all: seq<ValidBounds>, e: ValidBounds, g: ValidBounds)
    requires Spans(o, f, all) && IsHull(o, f, e, g)
    ensures Spans(o, g, all + [e])
  {
    var lo :| lo in all && f.Lo(o) == lo.Lo(o);
    var hi :| hi in all && f.Hi(o) == hi.Hi(o);
    var more := all + [e];
    assert lo in more && hi in more && e in more;
    assert forall x :: x in more ==> x in all || x == e;
  }

  lemma LastOne<T>(start: T, rest: seq<T>)
    requires rest != []
    ensures [start] + rest == ([start] + rest[..|rest| - 1]) + [rest[|rest| - 1]]
  {
  }

  // The folded minimum is a lower bound that is attained; likewise the maximum.
  lemma {:induction false} FoldEnds(o: Order, start: ValidBounds, extents: seq<ValidBounds>)
    ensures Spans(o, Fold(o, start, extents), [start] + extents)
    ensures Fold(o, start, extents).SameElsewhere(o, start)
  {
    if extents == [] {
      assert start in [start] + extents;
    } else {
      var n := |extents| - 1;
      FoldEnds(o, start, extents[..n]);
      var f := Fold(o, start, extents[..n]);
      LastOne(start, extents);
      SpansOneMore(o, f, [start] + extents[..n], extents[n], Fold(o, start, extents));
    }
  }

  // From the empty range, the fold is the least interval around all the extents.
  lemma LeastEnclosing(o: Order, extents: seq<ValidBounds>)
    requires forall e :: e in extents ==> e.Proper(o)
    ensures var f := Fold(o, InvalidRange(o), extents);
            && f.Proper(o)
            && (f.Empty(o) <==> forall e :: e in extents ==> e.Empty(o))
            && (forall e, x :: e in extents && e.Has(o, x) ==> f.Has(o, x))
            && (forall a, b :: Encloses(o, a, b, extents) && !f.Empty(o) ==> a <= f.Lo(o) && f.Hi(o) <= b)
  {
    FoldEnds(o, InvalidRange(o), extents);
    SpanIsLeast(o, Fold(o, InvalidRange(o), extents), InvalidRange(o), extents);
  }

  ghost predicate Encloses(o: Order, a: int, b: int, extents: seq<ValidBounds>) {
    forall e :: e in extents && !e.Empty(o) ==> a <= e.Lo(o) && e.Hi(o) <= b
  }

  lemma SpanIsLeast(o: Order, f: ValidBounds, none: ValidBounds, extents: seq<ValidBounds>)
    requires forall e :: e in extents ==> e.Proper(o)
    requires none.Empty(o) && Spans(o, f, [none] + extents)
    ensures f.Proper(o)
    ensures f.Empty(o) <==> forall e :: e in extents ==> e.Empty(o)
    ensures forall e, x :: e in extents && e.Has(o, x) ==> f.Has(o, x)
    ensures forall a, b :: Encloses(o, a, b, extents) && !f.Empty(o) ==> a <= f.Lo(o) && f.Hi(o) <= b
  {
    var all := [none] + extents;
    var lo :| lo in all && f.Lo(o) == lo.Lo(o);
    var hi :| hi in all && f.Hi(o) == hi.Hi(o);
    forall e | e in extents
      ensures f.Lo(o) <= e.Lo(o) && e.Hi(o) <= f.Hi(o)
    {
      assert e in all;
    }
    SpanOfProper(o, f, lo, hi, none, extents);
    if !f.Empty(o) {
      forall a, b | Encloses(o, a, b, extents)
        ensures a <= f.Lo(o) && f.Hi(o) <= b
      {
        SpanInside(o, f, lo, hi, extents, a, b);
      }
    }
  }

  lemma SpanOfProper(o: Order, f: ValidBounds, lo: ValidBounds, hi: ValidBounds, none: ValidBounds,
                     extents: seq<ValidBounds>)
    requires f.Lo(o) == lo.Lo(o) && f.Hi(o) == hi.Hi(o) && none.Empty(o)
    requires lo == none || lo in extents
    requires hi == none || hi in extents
    requires forall e :: e in extents ==> e.Proper(o) && f.Lo(o) <= e.Lo(o) && e.Hi(o) <= f.Hi(o)
    ensures f.Proper(o)
    ensures f.Empty(o) <==> forall e :: e in extents ==> e.Empty(o)
    ensures lo.Empty(o) || lo in extents
    ensures hi.Empty(o) || hi in extents
  {
  }

  lemma SpanInside(o: Order, f: ValidBounds, lo: ValidBounds, hi: ValidBounds, extents: seq<ValidBounds>,
                   a: int, b: int)
    requires f.Lo(o) == lo.Lo(o) && f.Hi(o) == hi.Hi(o)
    requires lo.Empty(o) || lo in extents
    requires hi.Empty(o) || hi in extents
    requires exists e :: e in extents && !e.Empty(o)
    requires Encloses(o, a, b, extents)
    ensures a <= f.Lo(o) && f.Hi(o) <= b
  {
    var e :| e in extents && !e.Empty(o);
    assert a <= e.Lo(o) && e.Hi(o) <= b;
  }

  // Neither order, repetition nor grouping matters.
  lemma FoldOfSameExtents(o: Order, start: ValidBounds, s: seq<ValidBounds>, t: seq<ValidBounds>)
    requires forall e :: e in s <==> e in t
    ensures Fold(o, start, s) == Fold(o, start, t)
  {
    FoldEnds(o, start, s);
    FoldEnds(o, start, t);
    assert forall e :: e in [start] + s <==> e in [start] + t;
    SameWords(o, Fold(o, start, s), Fold(o, start, t));
  }

  lemma {:induction false} FoldInGroups(o: Order, start: ValidBounds, s: seq<ValidBounds>, t: seq<ValidBounds>)
    ensures Fold(o, start, s + t) == Widened(o, Fold(o, start, s), Fold(o, start, t))
    decreases |t|
  {
    if t == [] {
      assert s + t == s;
      FoldEnds(o, start, s);
      assert start in [start] + s;
      SameWords(o, Fold(o, start, s), Widened(o, Fold(o, start, s), start));
    } else {
      var n := |t| - 1;
      FoldInGroups(o, start, s, t[..n]);
      assert (s + t)[..|s + t| - 1] == s + t[..n];
      Associative(o, Fold(o, start, s), Fold(o, start, t[..n]), t[n]);
    }
  }

  lemma Associative(o: Order, a: ValidBounds, b: ValidBounds, c: ValidBounds)
    ensures Widened(o, Widened(o, a, b), c) == Widened(o, a, Widened(o, b, c))
  {
    SameWords(o, Widened(o, Widened(o, a, b), c), Widened(o, a, Widened(o, b, c)));
  }

  // ---------- suitable ranges ----------

  datatype RoundStyle = Unrounded | Pos | Neg

  datatype SimpleValue = SimpleValue(sint64: int, sint128: int) {
    predicate Valid() {
      -TWO63 <= sint64 < TWO63 && -TWO127 <= sint128 < TWO127
    }

    function As(o: Order): (x: int)
      requires Valid()
    {
      match o
      case Signed64 => sint64
      case Unsigned64 => AsUnsigned(sint64)
      case Signed128 => sint128
    }
  }

  type Value = v: SimpleValue | v.Valid() witness SimpleValue(0, 0)

  // A range lies between two values, strictly at an end whose value was rounded outwards.
  predicate Within(o: Order, b: ValidBounds, start: Value, rfMin: RoundStyle, end: Value, rfMax: RoundStyle) {
    && (if rfMin.Pos? then start.As(o) < b.Lo(o) else start.As(o) <= b.Lo(o))
    && (if rfMax.Neg? then b.Hi(o) < end.As(o) else b.Hi(o) <= end.As(o))
  }

  predicate IsSuitableSInt64(b: ValidBounds, start: Value, rfMin: RoundStyle, end: Value, rfMax: RoundStyle)
    ensures IsSuitableSInt64(b, start, rfMin, end, rfMax)
            <==> && !(b.min == 0x7fff_ffff_ffff_ffff && b.max == -0x8000_0000_0000_0000)
                 && (start.sint64 < b.min || (start.sint64 == b.min && rfMin != Pos))
                 && (b.max < end.sint64 || (b.max == end.sint64 && rfMax != Neg))
  {
    if b.min >= start.sint64 && b.max <= end.sint64 && !(b.min == TWO63 - 1 && b.max == -TWO63) then
      if rfMin.Pos? && b.min == start.sint64 then false
      else if rfMax.Neg? && b.max == end.sint64 then false
      else true
    else false
  }

  predicate IsSuitableUInt64(b: ValidBounds, start: Value, rfMin: RoundStyle, end: Value, rfMax: RoundStyle)
    ensures IsSuitableUInt64(b, start, rfMin, end, rfMax)
            <==> var lo, hi, first, last :=
                   AsUnsigned(b.min), AsUnsigned(b.max), AsUnsigned(start.sint64), AsUnsigned(end.sint64);
                 && !(lo == 0xffff_ffff_ffff_ffff && hi == 0)
                 && (first < lo || (first == lo && rfMin != Pos))
                 && (hi < last || (hi == last && rfMax != Neg))
  {
    if AsUnsigned(b.min) >= AsUnsigned(start.sint64) && AsUnsigned(b.max) <= AsUnsigned(end.sint64) &&
       !(AsUnsigned(b.min) == TWO64 - 1 && b.max == 0) then
      if rfMin.Pos? && b.min == start.sint64 then false
      else if rfMax.Neg? && b.max == end.sint64 then false
      else true
    else false
  }

  predicate IsSuitableSInt128(b: ValidBounds, start: Value, rfMin: RoundStyle, end: Value, rfMax: RoundStyle)
    ensures IsSuitableSInt128(b, start, rfMin, end, rfMax)
            <==> && !(b.int128Min == 0x7fff_ffff_ffff_ffff_ffff_ffff_ffff_ffff
                      && b.int128Max == -0x8000_0000_0000_0000_0000_0000_0000_0000)
                 && (start.sint128 < b.int128Min || (start.sint128 == b.int128Min && rfMin != Pos))
                 && (b.int128Max < end.sint128 || (b.int128Max == end.sint128 && rfMax != Neg))
  {
    if b.int128Min >= start.sint128 && b.int128Max <= end.sint128 &&
       !(b.int128Min == TWO127 - 1 && b.int128Max == -TWO127) then
      if rfMin.Pos? && b.int128Min == start.sint128 then false
      else if rfMax.Neg? && b.int128Max == end.sint128 then false
      else true
    else false
  }

  predicate IsSuitable(o: Order, b: ValidBounds, start: Value, rfMin: RoundStyle, end: Value, rfMax: RoundStyle) {
    match o
    case Signed64 => IsSuitableSInt64(b, start, rfMin, end, rfMax)
    case Unsigned64 => IsSuitableUInt64(b, start, rfMin, end, rfMax)
    case Signed128 => IsSuitableSInt128(b, start, rfMin, end, rfMax)
  }

  // What suitability of a set of extents means: one has values, and all that have lie inside.
  ghost predicate AllWithin(o: Order, extents: seq<ValidBounds>,
                            start: Value, rfMin: RoundStyle, end: Value, rfMax: RoundStyle) {
    && (exists e :: e in extents && !e.Empty(o))
    && (forall e :: e in extents && !e.Empty(o) ==> Within(o, e, start, rfMin, end, rfMax))
  }

  lemma SuitableIff(o: Order, b: ValidBounds, start: Value, rfMin: RoundStyle, end: Value, rfMax: RoundStyle)
    ensures IsSuitable(o, b, start, rfMin, end, rfMax)
            <==> !b.Empty(o) && Within(o, b, start, rfMin, end, rfMax)
  {
  }

  // Ends taken from ranges inside, or empty, are inside.
  lemma EndsWithin(o: Order, f: ValidBounds, lo: ValidBounds, hi: ValidBounds, e: ValidBounds,
                   start: Value, rfMin: RoundStyle, end: Value, rfMax: RoundStyle)
    requires f.Lo(o) == lo.Lo(o) <= e.Lo(o) && f.Hi(o) == hi.Hi(o) >= e.Hi(o)
    requires !e.Empty(o) && Within(o, e, start, rfMin, end, rfMax)
    requires lo.Empty(o) || Within(o, lo, start, rfMin, end, rfMax)
    requires hi.Empty(o) || Within(o, hi, start, rfMin, end, rfMax)
    ensures !f.Empty(o) && Within(o, f, start, rfMin, end, rfMax)
  {
  }

  lemma PartWithin(o: Order, f: ValidBounds, e: ValidBounds,
                   start: Value, rfMin: RoundStyle, end: Value, rfMax: RoundStyle)
    requires f.Lo(o) <= e.Lo(o) && e.Hi(o) <= f.Hi(o) && Within(o, f, start, rfMin, end, rfMax)
    ensures Within(o, e, start, rfMin, end, rfMax)
  {
  }

  lemma SpanOfInside(o: Order, f: ValidBounds, all: seq<ValidBounds>,
                     start: Value, rfMin: RoundStyle, end: Value, rfMax: RoundStyle)
    requires Spans(o, f, all) && AllWithin(o, all, start, rfMin, end, rfMax)
    ensures !f.Empty(o) && Within(o, f, start, rfMin, end, rfMax)
  {
    var lo :| lo in all && f.Lo(o) == lo.Lo(o);
    var hi :| hi in all && f.Hi(o) == hi.Hi(o);
    var e :| e in all && !e.Empty(o);
    EndsWithin(o, f, lo, hi, e, start, rfMin, end, rfMax);
  }

  lemma InsideOfSpan(o: Order, f: ValidBounds, all: seq<ValidBounds>,
                     start: Value, rfMin: RoundStyle, end: Value, rfMax: RoundStyle)
    requires Spans(o, f, all) && !f.Empty(o) && Within(o, f, start, rfMin, end, rfMax)
    ensures AllWithin(o, all, start, rfMin, end, rfMax)
  {
    var lo :| lo in all && f.Lo(o) == lo.Lo(o);
    var hi :| hi in all && f.Hi(o) == hi.Hi(o);
    assert !lo.Empty(o) || !hi.Empty(o);
    forall e | e in all && !e.Empty(o)
      ensures Within(o, e, start, rfMin, end, rfMax)
    {
      PartWithin(o, f, e, start, rfMin, end, rfMax);
    }
  }

  lemma SuitableFold(o: Order, first: ValidBounds, rest: seq<ValidBounds>,
                     start: Value, rfMin: RoundStyle, end: Value, rfMax: RoundStyle)
    ensures IsSuitable(o, Fold(o, first, rest), start, rfMin, end, rfMax)
            <==> AllWithin(o, [first] + rest, start, rfMin, end, rfMax)
  {
    SuitableIff(o, Fold(o, first, rest), start, rfMin, end, rfMax);
    FoldEnds(o, first, rest);
    var f, all := Fold(o, first, rest), [first] + rest;
    if AllWithin(o, all, start, rfMin, end, rfMax) {
      SpanOfInside(o, f, all, start, rfMin, end, rfMax);
    } else if IsSuitable(o, f, start, rfMin, end, rfMax) {
      InsideOfSpan(o, f, all, start, rfMin, end, rfMax);
    }
  }

  // The same for a fold that starts from the empty range.
  lemma SuitableFoldOfAll(o: Order, extents: seq<ValidBounds>,
                          start: Value, rfMin: RoundStyle, end: Value, rfMax: RoundStyle)
    ensures IsSuitable(o, Fold(o, InvalidRange(o), extents), start, rfMin, end, rfMax)
            <==> AllWithin(o, extents, start, rfMin, end, rfMax)
  {
    var none := InvalidRange(o);
    SuitableFold(o, none, extents, start, rfMin, end, rfMax);
    assert forall e :: e in [none] + extents <==> e == none || e in extents;
  }

  // ---------- choosing partitions by value ----------

  // An extent of the column: its logical partition, its range, and whether the range is reliable.
  datatype Extent = Extent(partition: int, bounds: ValidBounds, cpValid: bool)

  datatype PartitionInfo = PartitionInfo(bounds: ValidBounds, invalid: bool)

  function RangesOf(entries: seq<Extent>, p: int): (r: seq<ValidBounds>) {
    if entries == [] then []
    else
      var n := |entries| - 1;
      RangesOf(entries[..n], p) + if entries[n].partition == p then [entries[n].bounds] else []
  }

  // Whether the first extent of a partition has a reliable range.
  predicate FirstIsReliable(entries: seq<Extent>, p: int) {
    if entries == [] then false
    else
      var n := |entries| - 1;
      if entries[n].partition == p && RangesOf(entries[..n], p) == [] then entries[n].cpValid
      else FirstIsReliable(entries[..n], p)
  }

  lemma {:induction false} FirstOfPartition(entries: seq<Extent>, i: nat, p: int)
    requires i < |entries| && entries[i].partition == p
    requires forall j :: 0 <= j < i ==> entries[j].partition != p
    ensures RangesOf(entries, p) != [] && RangesOf(entries, p)[0] == entries[i].bounds
    ensures FirstIsReliable(entries, p) <==> entries[i].cpValid
  {
    var n := |entries| - 1;
    if i < n {
      FirstOfPartition(entries[..n], i, p);
    } else {
      NoneBefore(entries[..n], p);
    }
  }

  lemma {:induction false} NoneBefore(entries: seq<Extent>, p: int)
    requires forall e :: e in entries ==> e.partition != p
    ensures RangesOf(entries, p) == []
  {
    if entries != [] {
      NoneBefore(entries[..|entries| - 1], p);
    }
  }

  // What the partition map holds for a partition after some entries.
  ghost predicate Summarises(o: Order, partMap: map<int, PartitionInfo>, entries: seq<Extent>, p: int) {
    var ranges := RangesOf(entries, p);
    && (p in partMap <==> ranges != [])
    && (p in partMap ==> (partMap[p].invalid <==> !FirstIsReliable(entries, p)))
    && (p in partMap && !partMap[p].invalid ==> partMap[p].bounds == Fold(o, ranges[0], ranges[1..]))
  }

  method AddPartition(o: Order, partMap: map<int, PartitionInfo>, entry: Extent, ghost before: seq<Extent>)
    returns (r: map<int, PartitionInfo>)
    requires forall p :: Summarises(o, partMap, before, p)
    ensures forall p :: Summarises(o, r, before + [entry], p)
  {
    r := partMap;
    var p := entry.partition;
    assert Summarises(o, partMap, before, p);
    if p !in partMap {
      r := partMap[p := PartitionInfo(entry.bounds, !entry.cpValid)];
    } else if !partMap[p].invalid {
      var b := WidenMinMaxInfo(o, partMap[p].bounds, entry.bounds);
      r := partMap[p := partMap[p].(bounds := b)];
    }
    ghost var entries := before + [entry];
    assert entries[..|before|] == before;
    ghost var ranges := RangesOf(before, p);
    if ranges != [] {
      FoldOneMore(o, ranges, entry.bounds);
    }
    forall q
      ensures Summarises(o, r, entries, q)
    {
      assert Summarises(o, partMap, before, q);
      assert q != p ==> RangesOf(entries, q) == RangesOf(before, q);
    }
  }

  lemma FoldOneMore(o: Order, ranges: seq<ValidBounds>, b: ValidBounds)
    requires ranges != []
    ensures var more := ranges + [b];
            Fold(o, more[0], more[1..]) == Widened(o, Fold(o, ranges[0], ranges[1..]), b)
  {
    var more := ranges + [b];
    assert more[1..][..|more[1..]| - 1] == ranges[1..];
  }

  predicate Picks(o: Order, info: PartitionInfo, start: Value, rfMin: RoundStyle, end: Value, rfMax: RoundStyle) {
    !info.invalid && IsSuitable(o, info.bounds, start, rfMin, end, rfMax)
  }

  lemma SomeKey(s: set<int>)
    requires s != {}
    ensures exists p :: p in s
  {
    if forall p :: p !in s {
      assert false;
    }
  }

  method SuitablePartitions(o: Order, partMap: map<int, PartitionInfo>, start: Value, rfMin: RoundStyle,
                            end: Value, rfMax: RoundStyle) returns (partSet: set<int>)
    ensures forall p :: p in partSet <==> p in partMap && Picks(o, partMap[p], start, rfMin, end, rfMax)
  {
    partSet := {};
    var todo := partMap.Keys;
    while todo != {}
      invariant todo <= partMap.Keys
      invariant forall p :: p in partSet <==>
                  p in partMap && p !in todo && Picks(o, partMap[p], start, rfMin, end, rfMax)
    {
      SomeKey(todo);
      var p :| p in todo;
      if Picks(o, partMap[p], start, rfMin, end, rfMax) {
        partSet := partSet + {p};
      }
      todo := todo - {p};
    }
  }

  // The first entry of a partition has a reliable range, one entry of it has values, and all that have
  // lie inside the interval.
  ghost predicate ByValue(o: Order, entries: seq<Extent>, p: int,
                          start: Value, rfMin: RoundStyle, end: Value, rfMax: RoundStyle) {
    && FirstReliable(entries, p)
    && (exists e :: e in entries && e.partition == p && !e.bounds.Empty(o))
    && (forall e :: e in entries && e.partition == p && !e.bounds.Empty(o) ==>
          Within(o, e.bounds, start, rfMin, end, rfMax))
  }

  ghost predicate FirstReliable(entries: seq<Extent>, p: int) {
    exists i :: && 0 <= i < |entries| && entries[i].partition == p && entries[i].cpValid
                && (forall j :: 0 <= j < i ==> entries[j].partition != p)
  }

  // The partitions chosen are exactly these.
  method PartitionsByValue(o: Order, entries: seq<Extent>, start: Value, rfMin: RoundStyle,
                           end: Value, rfMax: RoundStyle) returns (partSet: set<int>)
    ensures forall p :: p in partSet <==> ByValue(o, entries, p, start, rfMin, end, rfMax)
  {
    var partMap: map<int, PartitionInfo> := map[];
    var i := 0;
    while i < |entries|
      invariant 0 <= i <= |entries|
      invariant forall p :: Summarises(o, partMap, entries[..i], p)
    {
      partMap := AddPartition(o, partMap, entries[i], entries[..i]);
      assert entries[..i + 1] == entries[..i] + [entries[i]];
      i := i + 1;
    }
    assert entries[..i] == entries;
    partSet := SuitablePartitions(o, partMap, start, rfMin, end, rfMax);
    forall p
      ensures p in partSet <==> ByValue(o, entries, p, start, rfMin, end, rfMax)
    {
      Chosen(o, partMap, entries, p, start, rfMin, end, rfMax);
      RangesByValue(o, entries, p, start, rfMin, end, rfMax);
    }
  }

  // The ranges of a partition are those of its entries.
  lemma {:induction false} RangesAre(entries: seq<Extent>, p: int, b: ValidBounds)
    ensures b in RangesOf(entries, p) <==> exists e :: e in entries && e.partition == p && e.bounds == b
  {
    if entries != [] {
      var n := |entries| - 1;
      RangesAre(entries[..n], p, b);
      assert entries == entries[..n] + [entries[n]];
      assert forall e :: e in entries <==> e in entries[..n] || e == entries[n];
    }
  }

  lemma {:induction false} FirstReliableIs(entries: seq<Extent>, p: int)
    ensures FirstIsReliable(entries, p) <==> FirstReliable(entries, p)
  {
    if i :| 0 <= i < |entries| && entries[i].partition == p && forall j :: 0 <= j < i ==> entries[j].partition != p {
      FirstOfPartition(entries, i, p);
    } else {
      NoFirst(entries, |entries|, p);
      NeverReliable(entries, p);
    }
  }

  // Without a first entry there is none.
  lemma {:induction false} NoFirst(entries: seq<Extent>, n: nat, p: int)
    requires n <= |entries|
    requires !exists i :: && 0 <= i < |entries| && entries[i].partition == p
                          && forall j :: 0 <= j < i ==> entries[j].partition != p
    ensures forall i :: 0 <= i < n ==> entries[i].partition != p
  {
    if n > 0 {
      NoFirst(entries, n - 1, p);
    }
  }

  lemma {:induction false} NeverReliable(entries: seq<Extent>, p: int)
    requires forall i :: 0 <= i < |entries| ==> entries[i].partition != p
    ensures !FirstIsReliable(entries, p)
  {
    if entries != [] {
      NeverReliable(entries[..|entries| - 1], p);
    }
  }

  lemma RangesByValue(o: Order, entries: seq<Extent>, p: int,
                      start: Value, rfMin: RoundStyle, end: Value, rfMax: RoundStyle)
    ensures FirstIsReliable(entries, p) && AllWithin(o, RangesOf(entries, p), start, rfMin, end, rfMax)
            <==> ByValue(o, entries, p, start, rfMin, end, rfMax)
  {
    FirstReliableIs(entries, p);
    forall b: ValidBounds
      ensures b in RangesOf(entries, p) <==> exists e :: e in entries && e.partition == p && e.bounds == b
    {
      RangesAre(entries, p, b);
    }
  }

  lemma Chosen(o: Order, partMap: map<int, PartitionInfo>, entries: seq<Extent>, p: int,
               start: Value, rfMin: RoundStyle, end: Value, rfMax: RoundStyle)
    requires Summarises(o, partMap, entries, p)
    ensures p in partMap && Picks(o, partMap[p], start, rfMin, end, rfMax)
            <==> FirstIsReliable(entries, p) && AllWithin(o, RangesOf(entries, p), start, rfMin, end, rfMax)
  {
    var ranges := RangesOf(entries, p);
    if ranges != [] {
      assert [ranges[0]] + ranges[1..] == ranges;
      SuitableFold(o, ranges[0], ranges[1..], start, rfMin, end, rfMax);
    }
  }

  // Only the first extent's reliability counts: a later extent with an unreliable range is trusted.
  lemma LaterUnreliableRangeIsTrusted()
    ensures var one := Bounds(1, 1, 0, 0);
            var entries := [Extent(7, one, true), Extent(7, one, false)];
            var v := SimpleValue(1, 0);
            ByValue(Signed64, entries, 7, v, Unrounded, v, Unrounded)
  {
    var one: ValidBounds := Bounds(1, 1, 0, 0);
    var entries := [Extent(7, one, true), Extent(7, one, false)];
    assert entries[0].partition == 7 && entries[0] in entries;
  }

  // A range is widened: one entry outside the interval rules its partition out.
  lemma EntryOutsideRulesOut()
    ensures var entries := [Extent(7, Bounds(1, 1, 0, 0), true), Extent(7, Bounds(100, 100, 0, 0), true)];
            var v := SimpleValue(1, 0);
            !ByValue(Signed64, entries, 7, v, Unrounded, v, Unrounded)
  {
    var one: ValidBounds, hundred: ValidBounds := Bounds(1, 1, 0, 0), Bounds(100, 100, 0, 0);
    var entries := [Extent(7, one, true), Extent(7, hundred, true)];
    assert entries[1] in entries;
  }
}
