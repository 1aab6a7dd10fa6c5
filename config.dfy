/**
 * `Args::from_env`: the configuration read once from the process
 * environment, with the text conversions it relies on.
 */
module Config {
  import opened Wrappers

  /**
   * The process environment. A variable that is set maps to its value, or to
   * `None` when that value is not valid Unicode.
   */
  type Env = map<string, Option<string>>

  /** `std::env::VarError`. */
  datatype VarError = NotPresent | NotUnicode

  /** `std::env::var`. */
  function Var(env: Env, name: string): Result<string, VarError> {
    if name !in env then Failure(NotPresent)
    else
      match env[name]
      case None => Failure(NotUnicode)
      case Some(text) => Success(text)
  }

  const U64_MAX: int := 0xFFFF_FFFF_FFFF_FFFF

  newtype u64 = x: int | 0 <= x <= 0xFFFF_FFFF_FFFF_FFFF

  /** One hour, in seconds. */
  const DEFAULT_SCANNING_INTERVAL: u64 := 60 * 60

  datatype Args = Args(
    pcSessionId: string,
    maxDistance: Option<real>,
    scanningInterval: u64,
    lockerGroups: Option<seq<string>>)

  // ---------------------------------------------------------------------
  // `str::split` with a single-character separator

  /** The position of the first occurrence of `c` in `s`. */
  function IndexOf(s: string, c: char): (i: nat)
    requires c in s
    ensures i < |s| && s[i] == c && c !in s[..i]
  {
    if s[0] == c then 0
    else
      var i := 1 + IndexOf(s[1..], c);
      assert s[..i] == [s[0]] + s[1..][..i - 1];
      i
  }

  /**
   * `s.split(sep).collect()`: the pieces between consecutive separators,
   * each found by searching for the next separator.
   */
  function Split(s: string, sep: char): seq<string>
    decreases |s|
  {
    if sep !in s then [s]
    else
      var i := IndexOf(s, sep);
      [s[..i]] + Split(s[i + 1..], sep)
  }

  /** `pieces.join(sep)`. */
  function Join(pieces: seq<string>, sep: char): string
    decreases |pieces|
  {
    if |pieces| == 0 then []
    else if |pieces| == 1 then pieces[0]
    else pieces[0] + [sep] + Join(pieces[1..], sep)
  }

  function Occurrences(s: string, c: char): nat
    decreases |s|
  {
    if s == [] then 0 else (if s[0] == c then 1 else 0) + Occurrences(s[1..], c)
  }

  /** `x` stands in `s` between two separators (or the ends of `s`) and holds none itself. */
  ghost predicate IsField(s: string, x: string, sep: char) {
    && sep !in x
    && exists i :: FieldAt(s, x, sep, i)
  }

  ghost predicate FieldAt(s: string, x: string, sep: char, i: int) {
    && 0 <= i
    && i + |x| <= |s|
    && s[i..i + |x|] == x
    && (i == 0 || s[i - 1] == sep)
    && (i + |x| == |s| || s[i + |x|] == sep)
  }

  lemma {:induction false} OccurrencesAppend(a: string, b: string, c: char)
    ensures Occurrences(a + b, c) == Occurrences(a, c) + Occurrences(b, c)
    decreases |a|
  {
    if a == [] {
      assert a + b == b;
    } else {
      assert (a + b)[1..] == a[1..] + b;
      OccurrencesAppend(a[1..], b, c);
    }
  }

  lemma {:induction false} OccurrencesAbsent(a: string, c: char)
    requires c !in a
    ensures Occurrences(a, c) == 0
    decreases |a|
  {
    if a != [] {
      OccurrencesAbsent(a[1..], c);
    }
  }

  /** The text around the first separator. */
  lemma SplitAtFirst(s: string, sep: char)
    requires sep in s
    ensures s == s[..IndexOf(s, sep)] + [sep] + s[IndexOf(s, sep) + 1..]
  {
  }

  /**
   * There is one more piece than separators, the pieces hold no separator,
   * joining them restores the text, and the empty text splits into one
   * empty piece.
   */
  lemma {:induction false} SplitProperties(s: string, sep: char)
    ensures |Split(s, sep)| == Occurrences(s, sep) + 1
    ensures forall k :: 0 <= k < |Split(s, sep)| ==> sep !in Split(s, sep)[k]
    ensures Join(Split(s, sep), sep) == s
    ensures s == [] ==> Split(s, sep) == [[]]
    decreases |s|
  {
    if sep !in s {
      OccurrencesAbsent(s, sep);
    } else {
      var i := IndexOf(s, sep);
      var rest := s[i + 1..];
      SplitProperties(rest, sep);
      SplitAtFirst(s, sep);
      OccurrencesAppend(s[..i] + [sep], rest, sep);
      OccurrencesAppend(s[..i], [sep], sep);
      OccurrencesAbsent(s[..i], sep);
      assert Occurrences([sep], sep) == 1;
      var pieces := Split(s, sep);
      assert pieces == [s[..i]] + Split(rest, sep);
      assert pieces[1..] == Split(rest, sep);
    }
  }

  /** The first separator of `a + [c] + b` is the one after `a` when `a` holds none. */
  lemma {:induction false} IndexOfAfter(a: string, c: char, b: string)
    requires c !in a
    ensures IndexOf(a + [c] + b, c) == |a|
    decreases |a|
  {
    if a != [] {
      assert (a + [c] + b)[1..] == a[1..] + [c] + b;
      IndexOfAfter(a[1..], c, b);
    }
  }

  /** Splitting a join of separator-free pieces gives the pieces back. */
  lemma {:induction false} JoinSplit(pieces: seq<string>, sep: char)
    requires |pieces| >= 1
    requires forall k :: 0 <= k < |pieces| ==> sep !in pieces[k]
    ensures Split(Join(pieces, sep), sep) == pieces
    decreases |pieces|
  {
    var head := pieces[0];
    assert sep !in head;
    if |pieces| == 1 {
      assert Join(pieces, sep) == head;
    } else {
      var rest := pieces[1..];
      var tail := Join(rest, sep);
      var s := head + [sep] + tail;
      assert Join(pieces, sep) == s;
      assert s[|head|] == sep;
      IndexOfAfter(head, sep, tail);
      assert s[..|head|] == head;
      assert s[|head| + 1..] == tail;
      assert Split(s, sep) == [head] + Split(tail, sep);
      JoinSplit(rest, sep);
      assert pieces == [head] + rest;
    }
  }

  /** A field that starts at the front of `s` ends at the first separator. */
  lemma FirstField(s: string, x: string, sep: char)
    requires sep in s && sep !in x && FieldAt(s, x, sep, 0)
    ensures x == s[..IndexOf(s, sep)]
  {
  }

  /** Without a separator, the only field is the whole text. */
  lemma FieldsWithoutSep(s: string, x: string, sep: char)
    requires sep !in s
    ensures IsField(s, x, sep) <==> x == s
  {
    if x == s {
      assert FieldAt(s, x, sep, 0);
    }
    if IsField(s, x, sep) {
      var i :| FieldAt(s, x, sep, i);
    }
  }

  lemma SliceOfSuffix(s: string, a: nat, b: nat, c: nat)
    requires a <= |s| && b <= c <= |s| - a
    ensures s[a..][b..c] == s[a + b..a + c]
  {
    var left, right := s[a..][b..c], s[a + b..a + c];
    forall t | 0 <= t < |left|
      ensures left[t] == right[t]
    {
    }
  }

  /** A field of the text after the first separator is a field of the whole text. */
  lemma FieldInRest(s: string, x: string, sep: char, j: int)
    requires sep in s
    requires FieldAt(s[IndexOf(s, sep) + 1..], x, sep, j)
    ensures FieldAt(s, x, sep, IndexOf(s, sep) + 1 + j)
  {
    var i0 := IndexOf(s, sep);
    var rest := s[i0 + 1..];
    var k := i0 + 1 + j;
    SliceOfSuffix(s, i0 + 1, j, j + |x|);
    assert k == 0 || s[k - 1] == sep;
  }

  /** A field that does not start at the front lies after the first separator. */
  lemma FieldAfterFirst(s: string, x: string, sep: char, i: int)
    requires sep in s
    requires FieldAt(s, x, sep, i) && i > 0
    ensures i > IndexOf(s, sep)
    ensures FieldAt(s[IndexOf(s, sep) + 1..], x, sep, i - IndexOf(s, sep) - 1)
  {
    var i0 := IndexOf(s, sep);
    var rest := s[i0 + 1..];
    var j := i - i0 - 1;
    assert rest[j..j + |x|] == s[i..i + |x|];
  }

  /** The pieces are exactly the fields of the text. */
  lemma {:induction false} SplitFields(s: string, x: string, sep: char)
    ensures x in Split(s, sep) <==> IsField(s, x, sep)
    decreases |s|
  {
    if sep !in s {
      FieldsWithoutSep(s, x, sep);
    } else {
      var i0 := IndexOf(s, sep);
      var rest := s[i0 + 1..];
      SplitFields(rest, x, sep);
      assert Split(s, sep) == [s[..i0]] + Split(rest, sep);
      if x == s[..i0] {
        assert FieldAt(s, x, sep, 0);
      }
      if IsField(rest, x, sep) {
        var j :| FieldAt(rest, x, sep, j);
        FieldInRest(s, x, sep, j);
      }
      if IsField(s, x, sep) {
        var i :| FieldAt(s, x, sep, i);
        if i == 0 {
          FirstField(s, x, sep);
        } else {
          FieldAfterFirst(s, x, sep, i);
        }
      }
    }
  }

  // ---------------------------------------------------------------------
  // `str::parse::<u64>`

  predicate IsDigit(c: char) {
    '0' <= c <= '9'
  }

  predicate AllDigits(s: string) {
    forall k :: 0 <= k < |s| ==> IsDigit(s[k])
  }

  function DigitValue(c: char): nat
    requires IsDigit(c)
  {
    c as int - '0' as int
  }

  /** The number a string of decimal digits denotes. */
  function DigitsValue(ds: string): nat
    requires AllDigits(ds)
    decreases |ds|
  {
    if ds == [] then 0
    else DigitsValue(ds[..|ds| - 1]) * 10 + DigitValue(ds[|ds| - 1])
  }

  /**
   * `u64::from_str`: an optional `+`, then one or more ASCII digits whose
   * value fits in 64 bits.
   */
  function ParseU64(s: string): Option<u64> {
    var digits := if |s| > 0 && s[0] == '+' then s[1..] else s;
    if digits == [] || !AllDigits(digits) then None
    else if DigitsValue(digits) <= U64_MAX then Some(DigitsValue(digits) as u64)
    else None
  }

  function DigitChar(d: nat): (c: char)
    requires d < 10
    ensures IsDigit(c) && DigitValue(c) == d
  {
    ('0' as int + d) as char
  }

  /** The decimal text of `n`, without sign or leading zeros. */
  function Decimal(n: nat): string
    decreases n
  {
    if n < 10 then [DigitChar(n)] else Decimal(n / 10) + [DigitChar(n % 10)]
  }

  lemma {:induction false} DecimalValue(n: nat)
    ensures Decimal(n) != [] && AllDigits(Decimal(n)) && DigitsValue(Decimal(n)) == n
    decreases n
  {
    if n >= 10 {
      DecimalValue(n / 10);
      var ds := Decimal(n);
      assert ds[..|ds| - 1] == Decimal(n / 10);
    }
  }

  /** The text of a number, with or without a leading `+`, parses back to it. */
  lemma ParseU64Decimal(n: u64)
    ensures ParseU64(Decimal(n as nat)) == Some(n)
    ensures ParseU64("+" + Decimal(n as nat)) == Some(n)
  {
    DecimalValue(n as nat);
    var ds := Decimal(n as nat);
    assert ds[0] != '+';
    assert ("+" + ds)[1..] == ds;
  }

  /** No digits, or a minus sign, is not a `u64`. */
  lemma ParseU64Rejects(s: string)
    ensures s == [] || s == "+" || (|s| > 0 && s[0] == '-') ==> ParseU64(s) == None
  {
  }

  // ---------------------------------------------------------------------
  // `Args::from_env`

  /**
   * Only a missing or unreadable `pc_session_id` fails; every other setting
   * falls back to a default. The text syntax of an `f64` is the parameter
   * `parseF64`.
   */
  function FromEnv(env: Env, parseF64: string -> Option<real>): (r: Result<Args, VarError>)
    ensures r.Failure? <==> Var(env, "pc_session_id").Failure?
    ensures r.Failure? ==> r.error == Var(env, "pc_session_id").error
    ensures r.Success? ==> r.value.pcSessionId == Var(env, "pc_session_id").value
  {
    var pcSessionId :- Var(env, "pc_session_id");
    var maxDistance :=
      var text := Var(env, "max_distance").ToOption();
      if text.Some? then parseF64(text.value) else None;
    var lockerGroups :=
      var text := Var(env, "locker_groups").ToOption();
      if text.Some? then Some(Split(text.value, ',')) else None;
    var scanningInterval :=
      var text := Var(env, "scanning_interval").ToOption();
      (if text.Some? then ParseU64(text.value) else None).GetOr(DEFAULT_SCANNING_INTERVAL);
    Success(Args(pcSessionId, maxDistance, scanningInterval, lockerGroups))
  }

  /** Whether the configuration can be read depends on `pc_session_id` alone. */
  lemma FromEnvOnlySession(env1: Env, env2: Env, parseF64: string -> Option<real>)
    requires Var(env1, "pc_session_id") == Var(env2, "pc_session_id")
    ensures FromEnv(env1, parseF64).Success? == FromEnv(env2, parseF64).Success?
  {
  }

  /** `max_distance` is the parsed value when there is one, and otherwise absent. */
  lemma MaxDistanceFromEnv(env: Env, parseF64: string -> Option<real>)
    requires FromEnv(env, parseF64).Success?
    ensures Var(env, "max_distance").Failure? ==> FromEnv(env, parseF64).value.maxDistance.None?
    ensures Var(env, "max_distance").Success? ==>
      FromEnv(env, parseF64).value.maxDistance == parseF64(Var(env, "max_distance").value)
  {
  }

  /** The interval is the parsed number of seconds, or one hour when there is none. */
  lemma ScanningIntervalFromEnv(env: Env, parseF64: string -> Option<real>)
    requires FromEnv(env, parseF64).Success?
    ensures
      || Var(env, "scanning_interval").Failure?
      || ParseU64(Var(env, "scanning_interval").value).None?
      ==> FromEnv(env, parseF64).value.scanningInterval == 3600
    ensures
      && Var(env, "scanning_interval").Success?
      && ParseU64(Var(env, "scanning_interval").value).Some?
      ==> FromEnv(env, parseF64).value.scanningInterval ==
          ParseU64(Var(env, "scanning_interval").value).value
    ensures forall n: nat :: n <= U64_MAX && Var(env, "scanning_interval") == Success(Decimal(n)) ==>
      FromEnv(env, parseF64).value.scanningInterval as int == n
  {
    forall n: nat | n <= U64_MAX && Var(env, "scanning_interval") == Success(Decimal(n))
      ensures FromEnv(env, parseF64).value.scanningInterval as int == n
    {
      ParseU64Decimal(n as u64);
    }
  }

  /**
   * The name list is absent iff `locker_groups` is; otherwise it holds the
   * comma-separated fields of the variable, one more than its commas, which
   * join back to the variable's text.
   */
  lemma LockerGroupsFromEnv(env: Env, parseF64: string -> Option<real>)
    requires FromEnv(env, parseF64).Success?
    ensures FromEnv(env, parseF64).value.lockerGroups.None? <==> Var(env, "locker_groups").Failure?
    ensures Var(env, "locker_groups").Success? ==>
      var text := Var(env, "locker_groups").value;
      var names := FromEnv(env, parseF64).value.lockerGroups.value;
      && |names| == Occurrences(text, ',') + 1
      && Join(names, ',') == text
      && (text == [] ==> names == [[]])
      && forall name :: name in names <==> IsField(text, name, ',')
  {
    if Var(env, "locker_groups").Success? {
      var text := Var(env, "locker_groups").value;
      SplitProperties(text, ',');
      forall name
        ensures name in Split(text, ',') <==> IsField(text, name, ',')
      {
        SplitFields(text, name, ',');
      }
    }
  }
}
