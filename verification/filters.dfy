/** The query criteria of filters.py: attribute filters over close approaches,
    the factory that turns the user's options into a list of filters, and the
    `limit` that truncates a stream of results. */
module Filters {
  import opened Common
  import opened Helpers
  import opened Models

  /** The comparators the factory uses: `operator.eq`, `operator.ge` and
      `operator.le`. */
  datatype Comparator = Eq | Ge | Le

  /** Reading the attribute of interest raised `AttributeError`: the date
      filter calls `.date()` on a missing time, and the diameter and hazardous
      filters read through a missing NEO. */
  datatype FilterError = NoTime | NoNeo

  /** An `AttributeFilter` subclass with its comparator and reference value. */
  datatype Filter =
    | DateFilter(op: Comparator, date: CalendarDate)
    | DistanceFilter(op: Comparator, bound: real)
    | VelocityFilter(op: Comparator, bound: real)
    | DiameterFilter(op: Comparator, bound: real)
    | HazardousFilter(op: Comparator, flag: bool)

  /** `op(lhs, rhs)` for a totally ordered type, given whether `lhs < rhs`
      and whether `lhs == rhs`. */
  predicate Holds(op: Comparator, less: bool, equal: bool)
  {
    match op
    case Eq => equal
    case Ge => !less
    case Le => less || equal
  }

  /** `op(x, bound)` on numbers. */
  predicate RealHolds(op: Comparator, x: real, bound: real)
  {
    match op
    case Eq => x == bound
    case Ge => x >= bound
    case Le => x <= bound
  }

  /** A number that orders dates as Python does. */
  function DateKey(d: CalendarDate): (k: int)
    ensures 0 < k
  {
    d.year * 512 + d.month * 32 + d.day
  }

  /** Comparing the keys is comparing the dates. */
  lemma DateKeyOrder(a: CalendarDate, b: CalendarDate)
    ensures DateBefore(a, b) <==> DateKey(a) < DateKey(b)
    ensures a == b <==> DateKey(a) == DateKey(b)
  {
    assert a.day < 32 && b.day < 32 && a.month < 16 && b.month < 16;
    if a.year != b.year {
      assert a.year < b.year ==> DateKey(a) < DateKey(b);
      assert b.year < a.year ==> DateKey(b) < DateKey(a);
    } else if a.month != b.month {
      assert a.month < b.month ==> DateKey(a) < DateKey(b);
      assert b.month < a.month ==> DateKey(b) < DateKey(a);
    }
  }

  /** `op(x, flag)` on booleans, which Python orders `False < True`. */
  predicate BoolHolds(op: Comparator, x: bool, flag: bool)
  {
    match op
    case Eq => x == flag
    case Ge => x || !flag
    case Le => !x || flag
  }

  /** `AttributeFilter.__call__`: `op(get(approach), value)`, with the
      reference value on the right (filters.py:49-51) and `get` one of the
      five extractors (filters.py:65-105). An unknown number is NaN in the
      source, and every comparison with NaN is false. */
  function Call(f: Filter, a: CloseApproach): (r: Result<bool, FilterError>)
    ensures f.DateFilter? ==> (r.Err? <==> a.time.None?)
    ensures f.DateFilter? && a.time.Some? ==>
      r == Ok(RealHolds(f.op, DateKey(DateOf(a.time.value)) as real, DateKey(f.date) as real))
    ensures f.DistanceFilter? ==> r == Ok(a.distance.Some? && RealHolds(f.op, a.distance.value, f.bound))
    ensures f.VelocityFilter? ==> r == Ok(a.velocity.Some? && RealHolds(f.op, a.velocity.value, f.bound))
    ensures (f.DiameterFilter? || f.HazardousFilter?) ==> (r.Err? <==> a.neo.None?)
    ensures f.DiameterFilter? && a.neo.Some? ==>
      r == Ok(a.neo.value.diameter.Some? && RealHolds(f.op, a.neo.value.diameter.value, f.bound))
    ensures f.HazardousFilter? && a.neo.Some? ==> r == Ok(BoolHolds(f.op, a.neo.value.hazardous, f.flag))
    ensures r.Err? ==> r.error == (if f.DateFilter? then NoTime else NoNeo)
  {
    match f
    case DateFilter(op, date) =>
      if a.time.None? then Err(NoTime)
      else
        var day := DateOf(a.time.value);
        DateKeyOrder(day, date);
        Ok(Holds(op, DateBefore(day, date), day == date))
    case DistanceFilter(op, bound) =>
      Ok(a.distance.Some? && Holds(op, a.distance.value < bound, a.distance.value == bound))
    case VelocityFilter(op, bound) =>
      Ok(a.velocity.Some? && Holds(op, a.velocity.value < bound, a.velocity.value == bound))
    case DiameterFilter(op, bound) =>
      if a.neo.None? then Err(NoNeo)
      else
        var d := a.neo.value.diameter;
        Ok(d.Some? && Holds(op, d.value < bound, d.value == bound))
    case HazardousFilter(op, flag) =>
      if a.neo.None? then Err(NoNeo)
      else
        var h := a.neo.value.hazardous;
        Ok(Holds(op, !h && flag, h == flag))
  }

  /** A date filter reads only the date of the approach: two approaches on
      the same day, at whatever times, get the same verdict. */
  lemma DateFilterIgnoresTimeOfDay(op: Comparator, date: CalendarDate, a: CloseApproach, b: CloseApproach)
    requires a.time.Some? && b.time.Some?
    requires DateOf(a.time.value) == DateOf(b.time.value)
    ensures Call(DateFilter(op, date), a) == Call(DateFilter(op, date), b)
  {
  }

  /** The options of `create_filters`; `None` is an option not given. */
  datatype Criteria = Criteria(
    date: Option<CalendarDate>,
    startDate: Option<CalendarDate>,
    endDate: Option<CalendarDate>,
    distanceMin: Option<real>,
    distanceMax: Option<real>,
    velocityMin: Option<real>,
    velocityMax: Option<real>,
    diameterMin: Option<real>,
    diameterMax: Option<real>,
    hazardous: Option<bool>)

  /** Python's truth value of an optional number: `None` and `0.0` are false. */
  predicate Truthy(x: Option<real>)
  {
    x.Some? && x.value != 0.0
  }

  /** The criterion, if any, that `f` stands for. A numeric option that is
      zero gives no filter, a hazard option gives one even when it is
      `False`, and a `date` object is always true. */
  predicate Produces(c: Criteria, f: Filter)
  {
    match f
    case DateFilter(op, d) =>
      || (op == Eq && c.date == Some(d))
      || (op == Ge && c.startDate == Some(d))
      || (op == Le && c.endDate == Some(d))
    case DistanceFilter(op, b) =>
      || (op == Ge && Truthy(c.distanceMin) && c.distanceMin == Some(b))
      || (op == Le && Truthy(c.distanceMax) && c.distanceMax == Some(b))
    case VelocityFilter(op, b) =>
      || (op == Ge && Truthy(c.velocityMin) && c.velocityMin == Some(b))
      || (op == Le && Truthy(c.velocityMax) && c.velocityMax == Some(b))
    case DiameterFilter(op, b) =>
      || (op == Ge && Truthy(c.diameterMin) && c.diameterMin == Some(b))
      || (op == Le && Truthy(c.diameterMax) && c.diameterMax == Some(b))
    case HazardousFilter(op, h) =>
      op == Eq && c.hazardous == Some(h)
  }

  /** The position of a filter's option in the argument list of
      `create_filters`. */
  function Rank(f: Filter): (k: nat)
    ensures k < 10
  {
    match f
    case DateFilter(op, _) => if op == Eq then 0 else if op == Ge then 1 else 2
    case DistanceFilter(op, _) => if op == Le then 4 else 3
    case VelocityFilter(op, _) => if op == Le then 6 else 5
    case DiameterFilter(op, _) => if op == Le then 8 else 7
    case HazardousFilter(_, _) => 9
  }

  /** The filter that argument `k` of `create_filters` contributes, if any:
      one `if` of filters.py:118-137. */
  function FilterAt(c: Criteria, k: nat): (r: Option<Filter>)
    ensures r.Some? ==> Rank(r.value) == k
  {
    if k == 0 then (if c.date.Some? then Some(DateFilter(Eq, c.date.value)) else None)
    else if k == 1 then (if c.startDate.Some? then Some(DateFilter(Ge, c.startDate.value)) else None)
    else if k == 2 then (if c.endDate.Some? then Some(DateFilter(Le, c.endDate.value)) else None)
    else if k == 3 then (if Truthy(c.distanceMin) then Some(DistanceFilter(Ge, c.distanceMin.value)) else None)
    else if k == 4 then (if Truthy(c.distanceMax) then Some(DistanceFilter(Le, c.distanceMax.value)) else None)
    else if k == 5 then (if Truthy(c.velocityMin) then Some(VelocityFilter(Ge, c.velocityMin.value)) else None)
    else if k == 6 then (if Truthy(c.velocityMax) then Some(VelocityFilter(Le, c.velocityMax.value)) else None)
    else if k == 7 then (if Truthy(c.diameterMin) then Some(DiameterFilter(Ge, c.diameterMin.value)) else None)
    else if k == 8 then (if Truthy(c.diameterMax) then Some(DiameterFilter(Le, c.diameterMax.value)) else None)
    else if k == 9 then (if c.hazardous.Some? then Some(HazardousFilter(Eq, c.hazardous.value)) else None)
    else None
  }

  /** A filter comes from the criteria exactly when the argument at its rank
      produces it. */
  lemma ProducesAtRank(c: Criteria, f: Filter)
    ensures Produces(c, f) <==> FilterAt(c, Rank(f)) == Some(f)
  {
  }

  /** The filters that arguments `k` to 9 contribute, in argument order. */
  function FiltersFrom(c: Criteria, k: nat): (r: seq<Filter>)
    ensures forall f :: f in r ==> k <= Rank(f) && FilterAt(c, Rank(f)) == Some(f)
    ensures forall j :: k <= j && FilterAt(c, j).Some? ==> FilterAt(c, j).value in r
    ensures forall i, j :: 0 <= i < j < |r| ==> Rank(r[i]) < Rank(r[j])
    decreases 10 - k
  {
    if k >= 10 then []
    else
      var rest := FiltersFrom(c, k + 1);
      if FilterAt(c, k).Some? then [FilterAt(c, k).value] + rest else rest
  }

  /** `create_filters` (filters.py:108-139): every filter the options ask
      for, and nothing else, in the order of the arguments. */
  function CreateFilters(c: Criteria): (r: seq<Filter>)
    ensures forall f :: f in r <==> Produces(c, f)
    ensures forall i, j :: 0 <= i < j < |r| ==> Rank(r[i]) < Rank(r[j])
  {
    var r := FiltersFrom(c, 0);
    forall f ensures f in r <==> Produces(c, f) {
      ProducesAtRank(c, f);
    }
    r
  }

  /** With no option given there is no filter. */
  lemma CreateFiltersOfNothing()
    ensures CreateFilters(Criteria(None, None, None, None, None, None, None, None, None, None)) == []
  {
  }

  /** `limit` (filters.py:142-151). `None` and `0` leave the stream alone;
      otherwise `itertools.islice` passes on at most `n` items and, once it
      has `n`, stops pulling, so an error the generator would raise later is
      never seen. */
  function Limit<T, E>(s: Stream<T, E>, n: Option<nat>): (r: Stream<T, E>)
    ensures n.None? || n == Some(0) ==> r == s
    ensures r.items <= s.items
    ensures n.Some? && n.value > 0 ==> |r.items| == if |s.items| < n.value then |s.items| else n.value
    ensures r.raised.Some? ==> r.raised == s.raised
    ensures n.Some? && n.value > 0 ==> (r.raised.Some? <==> s.raised.Some? && |s.items| < n.value)
  {
    if n.None? || n.value == 0 then s
    else if |s.items| >= n.value then Stream(s.items[..n.value], None)
    else s
  }

  /** Limiting twice is limiting once, to the smaller bound. */
  lemma LimitTwice<T, E>(s: Stream<T, E>, m: nat, n: nat)
    requires 0 < m && 0 < n
    ensures Limit(Limit(s, Some(m)), Some(n)) == Limit(s, Some(if m < n then m else n))
  {
    if |s.items| >= m && n <= m {
      assert s.items[..m][..n] == s.items[..n];
    }
  }
}
