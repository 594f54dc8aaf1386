/**
 * `MinMaxRandomValue`: a random draw of a configured distribution kind,
 * forced into `[min, max]`. The random generator itself is not modelled:
 * the unbounded draw of the distribution (`random.uniform`,
 * `random.normalvariate`, `random.expovariate`) is passed in as `draw`.
 */
module RandomValue {
  import opened Common
  import opened Enums

  /** A configured bounded draw; the distribution parameters only shape `draw`. */
  datatype MinMaxRandomValue = MinMaxRandomValue(min: real, max: real, kind: DistributionType)

  /** Python's `min(hi, max(lo, v))`. */
  function Clamp(lo: real, hi: real, v: real): (r: real)
    ensures lo <= hi ==> lo <= r <= hi
    ensures lo <= v <= hi ==> r == v
    ensures lo <= hi && v < lo ==> r == lo
    ensures hi < v ==> r == hi
    ensures hi < lo ==> r == hi
  {
    var low := if lo < v then v else lo;
    if low < hi then low else hi
  }

  /** Clamping a clamped value changes nothing. */
  lemma ClampIdempotent(lo: real, hi: real, v: real)
    ensures Clamp(lo, hi, Clamp(lo, hi, v)) == Clamp(lo, hi, v)
  {
  }

  /**
   * `get_random_value`: the uniform draw is returned as it is, the normal and
   * exponential draws are clamped, and any other kind raises.
   */
  function GetRandomValue(v: MinMaxRandomValue, draw: real): (r: Result<real>)
    ensures v.kind.Unrecognized? <==> r == Err(UnknownDistribution)
    ensures v.kind == Uniform ==> r == Ok(draw)
    ensures (v.kind == Normal || v.kind == Exponential) ==> r == Ok(Clamp(v.min, v.max, draw))
    ensures (v.kind == Normal || v.kind == Exponential) ==>
              r.Ok? && (r.value == draw || r.value == v.min || r.value == v.max)
    ensures (v.kind == Normal || v.kind == Exponential) && v.min <= v.max ==>
              r.Ok? && v.min <= r.value <= v.max
    ensures (v.kind == Normal || v.kind == Exponential) && v.max < v.min ==> r == Ok(v.max)
  {
    match v.kind
    case Uniform => Ok(draw)
    case Normal => Ok(Clamp(v.min, v.max, draw))
    case Exponential => Ok(Clamp(v.min, v.max, draw))
    case Unrecognized(_) => Err(UnknownDistribution)
  }

  /** What `random.uniform(min, max)` can return. */
  predicate UniformDrawInRange(v: MinMaxRandomValue, draw: real) {
    (v.min <= draw <= v.max) || (v.max <= draw <= v.min)
  }

  /**
   * For every known kind and a configuration with `min <= max`, the value lies
   * in `[min, max]`, provided the uniform draw is one `random.uniform` can make.
   */
  lemma ValueWithinBounds(v: MinMaxRandomValue, draw: real)
    requires !v.kind.Unrecognized? && v.min <= v.max
    requires v.kind == Uniform ==> UniformDrawInRange(v, draw)
    ensures GetRandomValue(v, draw).Ok?
    ensures v.min <= GetRandomValue(v, draw).value <= v.max
  {
  }
}
