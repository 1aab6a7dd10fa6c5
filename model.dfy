/**
 * The locker-availability response decoder: `LockerGroup`, its positional
 * record decoder, and the parser that walks the response envelope to the
 * length-prefixed set of records.
 */
module Model {
  import opened Wrappers
  import opened Json

  /** (latitude, longitude) in degrees, carried through unchanged. */
  type Coordinates = (real, real)

  datatype LockerGroup = LockerGroup(name: string, coordinates: Coordinates, level: i32)

  /** The boxed string errors of the decoder, one per early exit. */
  datatype DecodeError = CountUnknown | NameUnknown | LatUnknown | LongUnknown | LevelUnknown {
    function Message(): string {
      match this
      case CountUnknown => "count present could not be determined"
      case NameUnknown => "name unknown"
      case LatUnknown => "lat unknown"
      case LongUnknown => "long unknown"
      case LevelUnknown => "level unknown"
    }
  }

  /** `root[4]["0"]["rec"]["2"]["set"]`. */
  const SET_PATH: seq<Step> := [Index(4), Key("0"), Key("rec"), Key("2"), Key("set")]

  function SetOf(root: Json): Json {
    Walk(root, SET_PATH)
  }

  /** `set[1].as_usize()`, the declared number of records. */
  function DeclaredCount(root: Json): Option<usize> {
    AsUsize(At(SetOf(root), 1))
  }

  /** Record `i` of a set sits at position `i + 2`, after the type tag and the count. */
  function RecordAt(setValue: Json, i: nat): Json {
    At(setValue, i + 2)
  }

  /** How many positions an array holds; indexing anything else always gives `JNull`. */
  function Present(v: Json): nat {
    if v.JArr? then |v.items| else 0
  }

  function NameField(v: Json): Json { Get(Get(v, "1"), "str") }
  function LatField(v: Json): Json { Get(Get(v, "2"), "dbl") }
  function LongField(v: Json): Json { Get(Get(v, "3"), "dbl") }
  function LevelField(v: Json): Json { Get(Get(v, "4"), "i32") }

  /**
   * `LockerGroup::from_json_value`: succeeds exactly when all four tagged
   * fields have the right type, and otherwise names the first field (in the
   * order name, lat, long, level) that does not.
   */
  function FromJsonValue(v: Json): (r: Result<LockerGroup, DecodeError>)
    ensures r.Success? <==>
      AsStr(NameField(v)).Some? && AsF64(LatField(v)).Some? &&
      AsF64(LongField(v)).Some? && AsI32(LevelField(v)).Some?
    ensures r.Success? ==>
      && NameField(v) == JStr(r.value.name)
      && LatField(v) == JNum(r.value.coordinates.0)
      && LongField(v) == JNum(r.value.coordinates.1)
      && LevelField(v) == JNum(r.value.level as real)
    ensures r == Failure(NameUnknown) <==> AsStr(NameField(v)).None?
    ensures r == Failure(LatUnknown) <==> AsStr(NameField(v)).Some? && AsF64(LatField(v)).None?
    ensures r == Failure(LongUnknown) <==>
      AsStr(NameField(v)).Some? && AsF64(LatField(v)).Some? && AsF64(LongField(v)).None?
    ensures r == Failure(LevelUnknown) <==>
      AsStr(NameField(v)).Some? && AsF64(LatField(v)).Some? &&
      AsF64(LongField(v)).Some? && AsI32(LevelField(v)).None?
  {
    var name, lat := AsStr(NameField(v)), AsF64(LatField(v));
    var long, level := AsF64(LongField(v)), AsI32(LevelField(v));
    if name.None? then Failure(NameUnknown)
    else if lat.None? then Failure(LatUnknown)
    else if long.None? then Failure(LongUnknown)
    else if level.None? then Failure(LevelUnknown)
    else Success(LockerGroup(name.value, (lat.value, long.value), level.value))
  }

  /**
   * `decode(0)`, ..., `decode(count - 1)` in order, stopping at the first
   * failure: what a loop computes that pushes `decode(i)?` onto a vector.
   */
  function DecodeEach<T, E>(decode: nat -> Result<T, E>, count: nat): Result<seq<T>, E>
    decreases count
  {
    if count == 0 then Success([])
    else
      match DecodeEach(decode, count - 1)
      case Failure(e) => Failure(e)
      case Success(prefix) =>
        match decode(count - 1)
        case Failure(e) => Failure(e)
        case Success(x) => Success(prefix + [x])
  }

  /** Decoding the record at each position of a set. */
  function RecordDecoder(setValue: Json): nat -> Result<LockerGroup, DecodeError> {
    (i: nat) => FromJsonValue(RecordAt(setValue, i))
  }

  /**
   * The records `set[2 .. 2 + count]` decoded in order; the first record
   * that fails to decode makes the whole result that failure.
   */
  function DecodeRecords(setValue: Json, count: nat): Result<seq<LockerGroup>, DecodeError> {
    DecodeEach(RecordDecoder(setValue), count)
  }

  /**
   * `LockerGroup::parse` on an already-parsed tree: a root that is not an
   * array gives no groups; otherwise the declared count must be readable and
   * that many records must decode.
   */
  function ParseTree(root: Json): Result<seq<LockerGroup>, DecodeError> {
    if !root.JArr? then Success([])
    else
      var count :- DeclaredCount(root).ToResult(CountUnknown);
      DecodeRecords(SetOf(root), count as nat)
  }

  /** The fixed path, one indexing step at a time. */
  lemma SetPathSteps(root: Json)
    ensures SetOf(root) == Get(Get(Get(Get(At(root, 4), "0"), "rec"), "2"), "set")
  {
    assert SET_PATH[1..][1..][1..][1..][1..] == [];
  }

  /** One more record: its success extends the decoded list, its failure ends the decoding. */
  lemma DecodeRecordsStep(setValue: Json, n: nat, groups: seq<LockerGroup>)
    requires DecodeRecords(setValue, n) == Success(groups)
    ensures var next := FromJsonValue(RecordAt(setValue, n));
      DecodeRecords(setValue, n + 1) ==
        if next.Success? then Success(groups + [next.value]) else Failure(next.error)
  {
    assert RecordDecoder(setValue)(n) == FromJsonValue(RecordAt(setValue, n));
  }

  /** `LockerGroup::parse`: a loop that pushes the decoded records into a vector. */
  method Parse(root: Json) returns (r: Result<seq<LockerGroup>, DecodeError>)
    ensures r == ParseTree(root)
  {
    ParseShape(root);
    var groups: seq<LockerGroup> := [];
    if root.JArr? {
      var setValue := At(root, 4);
      setValue := Get(setValue, "0");
      setValue := Get(setValue, "rec");
      setValue := Get(setValue, "2");
      setValue := Get(setValue, "set");
      SetPathSteps(root);
      var countPresent := AsUsize(At(setValue, 1));
      if countPresent.None? {
        return Failure(CountUnknown);
      }
      var count := countPresent.value as nat;
      var index := 0;
      while index < count
        invariant 0 <= index <= count
        invariant DecodeRecords(setValue, index) == Success(groups)
      {
        var group := FromJsonValue(RecordAt(setValue, index));
        DecodeRecordsStep(setValue, index, groups);
        if group.Failure? {
          FailurePersists(RecordDecoder(setValue), index + 1, count);
          return Failure(group.error);
        }
        groups := groups + [group.value];
        index := index + 1;
      }
    }
    return Success(groups);
  }

  /** Once decoding fails at some count, every larger count fails the same way. */
  lemma {:induction false} FailurePersists<T, E>(decode: nat -> Result<T, E>, k: nat, n: nat)
    requires k <= n
    requires DecodeEach(decode, k).Failure?
    ensures DecodeEach(decode, n) == DecodeEach(decode, k)
    decreases n
  {
    if n > k {
      FailurePersists(decode, k, n - 1);
    }
  }

  /** Decoding succeeds iff every item does; the result has `count` elements, in order. */
  lemma {:induction false} DecodeEachSuccess<T, E>(decode: nat -> Result<T, E>, count: nat)
    ensures DecodeEach(decode, count).Success? <==> forall i :: 0 <= i < count ==> decode(i).Success?
    ensures DecodeEach(decode, count).Success? ==>
      && |DecodeEach(decode, count).value| == count
      && forall i :: 0 <= i < count ==> decode(i) == Success(DecodeEach(decode, count).value[i])
    decreases count
  {
    if count > 0 {
      DecodeEachSuccess(decode, count - 1);
    }
  }

  /** A failed decoding reports the error of the first item that fails. */
  lemma {:induction false} DecodeEachFailure<T, E>(decode: nat -> Result<T, E>, count: nat)
    requires DecodeEach(decode, count).Failure?
    ensures exists i ::
      && 0 <= i < count
      && decode(i) == Failure(DecodeEach(decode, count).error)
      && forall j :: 0 <= j < i ==> decode(j).Success?
    decreases count
  {
    if DecodeEach(decode, count - 1).Failure? {
      DecodeEachFailure(decode, count - 1);
    } else {
      DecodeEachSuccess(decode, count - 1);
      assert decode(count - 1) == Failure(DecodeEach(decode, count).error);
    }
  }

  /** Items that decode to `xs`, in order, make `DecodeEach` return `xs`. */
  lemma DecodeEachOf<T, E>(decode: nat -> Result<T, E>, xs: seq<T>)
    requires forall i :: 0 <= i < |xs| ==> decode(i) == Success(xs[i])
    ensures DecodeEach(decode, |xs|) == Success(xs)
  {
    DecodeEachSuccess(decode, |xs|);
    assert DecodeEach(decode, |xs|).value == xs;
  }

  /** Decoding `count` items reads nothing but those items. */
  lemma {:induction false} DecodeEachReadsOnly<T, E>(d1: nat -> Result<T, E>, d2: nat -> Result<T, E>, count: nat)
    requires forall i :: 0 <= i < count ==> d1(i) == d2(i)
    ensures DecodeEach(d1, count) == DecodeEach(d2, count)
    decreases count
  {
    if count > 0 {
      DecodeEachReadsOnly(d1, d2, count - 1);
    }
  }

  /** The decoder of each record applies `from_json_value` to that record. */
  lemma RecordDecoderAt(setValue: Json)
    ensures forall i: nat :: RecordDecoder(setValue)(i) == FromJsonValue(RecordAt(setValue, i))
  {
  }

  /** A root that is not an array yields no groups; an unreadable count is an error. */
  lemma ParseShape(root: Json)
    ensures !root.JArr? ==> ParseTree(root) == Success([])
    ensures root.JArr? && DeclaredCount(root).None? ==> ParseTree(root) == Failure(CountUnknown)
    ensures root.JArr? && DeclaredCount(root).Some? ==>
      ParseTree(root) == DecodeRecords(SetOf(root), DeclaredCount(root).value as nat)
  {
  }

  /**
   * With a readable count, the parse succeeds iff each of the declared
   * records decodes, and then yields exactly those records, in order.
   */
  lemma ParseSuccess(root: Json)
    requires root.JArr? && DeclaredCount(root).Some?
    ensures ParseTree(root).Success? <==>
      forall i :: 0 <= i < DeclaredCount(root).value as nat ==>
        FromJsonValue(RecordAt(SetOf(root), i)).Success?
    ensures ParseTree(root).Success? ==>
      && |ParseTree(root).value| == DeclaredCount(root).value as nat
      && forall i :: 0 <= i < |ParseTree(root).value| ==>
           FromJsonValue(RecordAt(SetOf(root), i)) == Success(ParseTree(root).value[i])
  {
    var setValue := SetOf(root);
    var count := DeclaredCount(root).value as nat;
    assert ParseTree(root) == DecodeEach(RecordDecoder(setValue), count);
    DecodeEachSuccess(RecordDecoder(setValue), count);
    RecordDecoderAt(setValue);
  }

  /**
   * All or nothing: a parse that fails on a record returns that record's
   * error, for the first of the declared records that does not decode, and
   * no groups.
   */
  lemma ParseFirstFailure(root: Json)
    requires root.JArr? && DeclaredCount(root).Some?
    requires ParseTree(root).Failure?
    ensures exists i ::
      && 0 <= i < DeclaredCount(root).value as nat
      && FromJsonValue(RecordAt(SetOf(root), i)) == Failure(ParseTree(root).error)
      && forall j :: 0 <= j < i ==> FromJsonValue(RecordAt(SetOf(root), j)).Success?
  {
    var setValue := SetOf(root);
    var count := DeclaredCount(root).value as nat;
    assert ParseTree(root) == DecodeEach(RecordDecoder(setValue), count);
    DecodeEachFailure(RecordDecoder(setValue), count);
    RecordDecoderAt(setValue);
  }

  /** A break anywhere along the fixed path leaves no count to read: the parse fails. */
  lemma ParseMissingPath(root: Json, k: nat)
    requires root.JArr?
    requires k <= |SET_PATH|
    requires Walk(root, SET_PATH[..k]) == JNull
    ensures ParseTree(root) == Failure(CountUnknown)
  {
    WalkBroken(root, SET_PATH, k);
  }

  /**
   * A count larger than the records present fails the parse; once every
   * present record decodes, the failure is the missing name of the first
   * absent record.
   */
  lemma ParseOvercount(root: Json)
    requires root.JArr?
    requires DeclaredCount(root).Some?
    requires DeclaredCount(root).value as nat + 2 > Present(SetOf(root))
    ensures ParseTree(root).Failure?
    ensures (forall i :: 0 <= i && i + 2 < Present(SetOf(root)) ==>
               FromJsonValue(RecordAt(SetOf(root), i)).Success?) ==>
      ParseTree(root) == Failure(NameUnknown)
  {
    var setValue := SetOf(root);
    var first: nat := Present(setValue) - 2;
    assert RecordAt(setValue, first) == JNull;
    assert FromJsonValue(RecordAt(setValue, first)) == Failure(NameUnknown);
    ParseSuccess(root);
    if forall i :: 0 <= i && i + 2 < Present(setValue) ==> FromJsonValue(RecordAt(setValue, i)).Success? {
      ParseFirstFailure(root);
      var i :|
        && 0 <= i < DeclaredCount(root).value as nat
        && FromJsonValue(RecordAt(setValue, i)) == Failure(ParseTree(root).error)
        && forall j :: 0 <= j < i ==> FromJsonValue(RecordAt(setValue, j)).Success?;
      assert i == first;
    }
  }

  /**
   * `parse` reads only the count `set[1]` and the records `set[2 .. 2 + count]`:
   * the type tag `set[0]` and anything after the declared records do not matter.
   */
  lemma ParseReadsOnly(root1: Json, root2: Json)
    requires root1.JArr? && root2.JArr?
    requires At(SetOf(root1), 1) == At(SetOf(root2), 1)
    requires DeclaredCount(root1).Some? ==>
      forall i :: 0 <= i < DeclaredCount(root1).value as nat ==>
        RecordAt(SetOf(root1), i) == RecordAt(SetOf(root2), i)
    ensures ParseTree(root1) == ParseTree(root2)
  {
    if DeclaredCount(root1).Some? {
      DecodeEachReadsOnly(RecordDecoder(SetOf(root1)), RecordDecoder(SetOf(root2)), DeclaredCount(root1).value as nat);
    }
  }

  /** The tagged record the service sends for a locker group. */
  function EncodeRecord(g: LockerGroup): Json {
    JObj(map[
      "1" := JObj(map["str" := JStr(g.name)]),
      "2" := JObj(map["dbl" := JNum(g.coordinates.0)]),
      "3" := JObj(map["dbl" := JNum(g.coordinates.1)]),
      "4" := JObj(map["i32" := JNum(g.level as real)])])
  }

  /** A set of records: the type tag, the count, then the records. */
  function EncodeSet(groups: seq<LockerGroup>): Json {
    JArr([JStr("rec"), JNum(|groups| as real)]
         + seq(|groups|, i requires 0 <= i < |groups| => EncodeRecord(groups[i])))
  }

  /** A response envelope whose fixed path leads to the set of `groups`. */
  function EncodeResponse(groups: seq<LockerGroup>): Json {
    JArr([JNull, JStr("getMapLayerItems2"), JNull, JNull,
          JObj(map["0" := JObj(map["rec" := JObj(map["2" := JObj(map["set" := EncodeSet(groups)])])])])])
  }

  lemma RecordRoundTrip(g: LockerGroup)
    ensures FromJsonValue(EncodeRecord(g)) == Success(g)
  {
  }

  /** Parsing a well-formed envelope gives back exactly the encoded groups. */
  lemma ParseRoundTrip(groups: seq<LockerGroup>)
    requires |groups| <= USIZE_MAX
    ensures ParseTree(EncodeResponse(groups)) == Success(groups)
  {
    var root := EncodeResponse(groups);
    var setValue := EncodeSet(groups);
    assert SetOf(root) == setValue;
    assert At(setValue, 1) == JNum(|groups| as real);
    assert DeclaredCount(root) == Some(|groups| as usize);
    forall i | 0 <= i < |groups|
      ensures FromJsonValue(RecordAt(setValue, i)) == Success(groups[i])
    {
      assert RecordAt(setValue, i) == EncodeRecord(groups[i]);
      RecordRoundTrip(groups[i]);
    }
    RecordDecoderAt(setValue);
    DecodeEachOf(RecordDecoder(setValue), groups);
  }
}
