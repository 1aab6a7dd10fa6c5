/**
 * The already-parsed JSON tree of the `json` crate (`JsonValue`), its
 * indexing operators and its typed accessors.
 *
 * Indexing never fails: a missing key, an index past the end, or indexing
 * a value that is not a container of the right kind yields `JNull`.
 */
module Json {
  import opened Wrappers

  const USIZE_MAX: int := 0xFFFF_FFFF_FFFF_FFFF

  /** A 64-bit `usize`. */
  newtype usize = x: int | 0 <= x <= 0xFFFF_FFFF_FFFF_FFFF

  newtype i32 = x: int | -0x8000_0000 <= x < 0x8000_0000

  /**
   * `JsonValue`. The crate's two string variants (`Short`, `String`) are one
   * here; a number is the exact decimal value it denotes.
   */
  datatype Json =
    | JNull
    | JBool(b: bool)
    | JNum(n: real)
    | JStr(s: string)
    | JArr(items: seq<Json>)
    | JObj(fields: map<string, Json>)

  /** `value[i]` with a `usize` index. */
  function At(v: Json, i: nat): Json {
    if v.JArr? && i < |v.items| then v.items[i] else JNull
  }

  /** `value["key"]`. */
  function Get(v: Json, key: string): Json {
    if v.JObj? && key in v.fields then v.fields[key] else JNull
  }

  /** One indexing step of a chain such as `root[4]["0"]`. */
  datatype Step = Index(i: nat) | Key(k: string)

  function Apply(v: Json, step: Step): Json {
    match step
    case Index(i) => At(v, i)
    case Key(k) => Get(v, k)
  }

  /** The value reached by applying the steps of `path` left to right. */
  function Walk(v: Json, path: seq<Step>): Json
    decreases |path|
  {
    if path == [] then v else Walk(Apply(v, path[0]), path[1..])
  }

  /** Walking a path is walking its prefix, then its suffix. */
  lemma {:induction false} WalkAppend(v: Json, p: seq<Step>, q: seq<Step>)
    ensures Walk(v, p + q) == Walk(Walk(v, p), q)
    decreases |p|
  {
    if p != [] {
      assert (p + q)[0] == p[0];
      assert (p + q)[1..] == p[1..] + q;
      WalkAppend(Apply(v, p[0]), p[1..], q);
    } else {
      assert p + q == q;
    }
  }

  /** Every step from `JNull` stays at `JNull`. */
  lemma {:induction false} WalkNull(p: seq<Step>)
    ensures Walk(JNull, p) == JNull
    decreases |p|
  {
    if p != [] {
      WalkNull(p[1..]);
    }
  }

  /** Once a step of the path reaches `JNull`, the whole path yields `JNull`. */
  lemma WalkBroken(v: Json, p: seq<Step>, k: nat)
    requires k <= |p|
    requires Walk(v, p[..k]) == JNull
    ensures Walk(v, p) == JNull
  {
    assert p == p[..k] + p[k..];
    WalkAppend(v, p[..k], p[k..]);
    WalkNull(p[k..]);
  }

  predicate IsIntegral(n: real) {
    n == n.Floor as real
  }

  /** `as_str`: the text of a string value. */
  function AsStr(v: Json): (r: Option<string>)
    ensures r.Some? <==> v.JStr?
    ensures r.Some? ==> v == JStr(r.value)
  {
    match v
    case JStr(s) => Some(s)
    case _ => None
  }

  /** `as_f64`: any number; rounding to the nearest double is not modelled. */
  function AsF64(v: Json): (r: Option<real>)
    ensures r.Some? <==> v.JNum?
    ensures r.Some? ==> v == JNum(r.value)
  {
    match v
    case JNum(n) => Some(n)
    case _ => None
  }

  /** `as_usize`: a non-negative integral number that fits in 64 bits. */
  function AsUsize(v: Json): (r: Option<usize>)
    ensures r.Some? <==> v.JNum? && IsIntegral(v.n) && 0.0 <= v.n <= USIZE_MAX as real
    ensures r.Some? ==> v == JNum(r.value as real)
  {
    match v
    case JNum(n) =>
      if IsIntegral(n) && 0 <= n.Floor <= USIZE_MAX then Some(n.Floor as usize) else None
    case _ => None
  }

  /** `as_i32`: an integral number within the 32-bit signed range. */
  function AsI32(v: Json): (r: Option<i32>)
    ensures r.Some? <==> v.JNum? && IsIntegral(v.n) && -0x8000_0000 as real <= v.n < 0x8000_0000 as real
    ensures r.Some? ==> v == JNum(r.value as real)
  {
    match v
    case JNum(n) =>
      if IsIntegral(n) && -0x8000_0000 <= n.Floor < 0x8000_0000 then Some(n.Floor as i32) else None
    case _ => None
  }
}
