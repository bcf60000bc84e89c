/** The immutable instance data of a pickup-and-delivery problem: vehicles,
    calls, trips and vehicle-call handling records, the two-variant `Result`
    and the integer parsers used when an instance is loaded. */
module Instance {

  /** An 8-bit unsigned integer (`uint8_t`): node ids, and the vehicle and call
      indices stored inside trip, handling and permission records. */
  newtype u8 = x: int | 0 <= x < 256

  const INT_MIN: int := -0x8000_0000
  const INT_MAX: int := 0x7fff_ffff

  datatype Option<T> = None | Some(value: T)

  /** A value of `T` or an error of `E`, held in a two-alternative variant. */
  datatype Result<T, E> = Val(value: T) | Err(error: E) {
    /** `operator bool`: true exactly when the variant holds its first alternative. */
    predicate IsTruthy() { Val? }

    /** `val()`: the held value (reading the other alternative throws). */
    function GetVal(): T
      requires Val?
    {
      value
    }

    /** `err()`: the held error (reading the other alternative throws). */
    function GetErr(): E
      requires Err?
    {
      error
    }
  }

  /** The constructor from a `T`. */
  function FromValue<T, E>(v: T): (r: Result<T, E>)
    ensures r.IsTruthy() && r.GetVal() == v
  {
    Val(v)
  }

  /** The constructor from an `E`. */
  function FromError<T, E>(e: E): (r: Result<T, E>)
    ensures !r.IsTruthy() && r.GetErr() == e
  {
    Err(e)
  }

  /** `val_or_max()` on an integer result: the value, or the largest `int`. */
  function ValOrMax<E>(r: Result<int, E>): (v: int)
    ensures r.IsTruthy() ==> v == r.GetVal()
    ensures !r.IsTruthy() ==> v == INT_MAX
  {
    match r
    case Val(x) => x
    case Err(_) => INT_MAX
  }

  /// Records

  datatype Vehicle = Vehicle(homeNodeIndex: u8, startingTime: int, capacity: int, availableCalls: seq<u8>)

  datatype Call = Call(
    origin: u8,
    destination: u8,
    size: int,
    costOfNotTransporting: int,
    lowerTimewindowPickup: int,
    upperTimewindowPickup: int,
    lowerTimewindowDelivery: int,
    upperTimewindowDelivery: int)

  datatype Trip = Trip(vehicleIndex: u8, origin: u8, destination: u8, time: int, cost: int)

  datatype VehicleCall = VehicleCall(
    vehicleIndex: u8,
    callIndex: u8,
    originNodeTime: int,
    originNodeCosts: int,
    destNodeTime: int,
    destNodeCosts: int)

  /** The handling records are looked up by (vehicle index, call index). */
  datatype Problem = Problem(
    nodeCount: nat,
    vehicles: seq<Vehicle>,
    calls: seq<Call>,
    trips: seq<Trip>,
    vehicleCalls: map<(int, int), VehicleCall>)

  /** Every call a vehicle is permitted to carry is a call of the instance.
      The evaluators index `calls` with every id that passed the permission
      check, so they rely on this. */
  ghost predicate ValidProblem(p: Problem) {
    forall v, c :: 0 <= v < |p.vehicles| && c in p.vehicles[v].availableCalls ==> (c as int) < |p.calls|
  }

  /** Vehicle `v` lists `x` among the calls it may carry (compared as integers). */
  predicate Permitted(v: Vehicle, x: int) {
    0 <= x < 256 && (x as u8) in v.availableCalls
  }

  /** Every id of the route indexes a call of the instance. */
  predicate ValidIds(p: Problem, route: seq<int>) {
    forall k :: 0 <= k < |route| ==> 0 <= route[k] < |p.calls|
  }

  lemma PermittedIsValid(p: Problem, i: nat, x: int)
    requires ValidProblem(p) && i < |p.vehicles| && Permitted(p.vehicles[i], x)
    ensures 0 <= x < |p.calls|
  {
    assert (x as u8) in p.vehicles[i].availableCalls;
  }

  /// Failures reported by the evaluators

  datatype Failure =
    | NotPermitted(vehicle: int, call: int)
    | ExceedsCapacity(vehicle: int)
    | MissedPickup(vehicle: int)
    | MissedDelivery(vehicle: int)
    | NoRoutePath
    | NoVehicleCallCombo

  /** The message text the source attaches to each failure. */
  function Message(f: Failure): string {
    match f
    case NotPermitted(i, c) => "Vehicle " + IntToString(i) + " does not have required route " + IntToString(c)
    case ExceedsCapacity(i) => "Vehicle " + IntToString(i) + " exceeds capacity."
    case MissedPickup(i) => "Vehicle " + IntToString(i) + " missed their timeslot for pickup."
    case MissedDelivery(i) => "Vehicle " + IntToString(i) + " missed their timeslot for delivery."
    case NoRoutePath => "Could not find route path."
    case NoVehicleCallCombo => "Could not find vehicle call combo."
  }

  /// Trip lookup: the first trip record of the vehicle between two nodes

  predicate TripMatches(t: Trip, i: int, a: int, b: int) {
    t.vehicleIndex as int == i && t.origin as int == a && t.destination as int == b
  }

  /** Index of the first trip at or after `from` that matches. */
  function TripIndexFrom(trips: seq<Trip>, from: nat, i: int, a: int, b: int): (r: Option<nat>)
    requires from <= |trips|
    ensures r.Some? ==> from <= r.value < |trips| && TripMatches(trips[r.value], i, a, b)
    decreases |trips| - from
  {
    if from == |trips| then None
    else if TripMatches(trips[from], i, a, b) then Some(from)
    else TripIndexFrom(trips, from + 1, i, a, b)
  }

  /** The index found is the first match at or after `from`, and none is
      found exactly when nothing there matches. */
  lemma {:induction false} TripIndexFirst(trips: seq<Trip>, from: nat, i: int, a: int, b: int)
    requires from <= |trips|
    ensures var r := TripIndexFrom(trips, from, i, a, b);
            && (r.Some? ==> forall j :: from <= j < r.value ==> !TripMatches(trips[j], i, a, b))
            && (r.None? ==> forall j :: from <= j < |trips| ==> !TripMatches(trips[j], i, a, b))
    decreases |trips| - from
  {
    if from < |trips| && !TripMatches(trips[from], i, a, b) {
      TripIndexFirst(trips, from + 1, i, a, b);
    }
  }

  /** `findPath(a, b)` for vehicle `i`: the first matching trip, if any. */
  function FindTrip(trips: seq<Trip>, i: int, a: int, b: int): (r: Option<Trip>)
    ensures r.Some? ==> TripMatches(r.value, i, a, b)
  {
    match TripIndexFrom(trips, 0, i, a, b)
    case None => None
    case Some(k) => Some(trips[k])
  }

  /** `findPath` is empty exactly when no trip matches, and otherwise finds
      the first matching trip of the list. */
  lemma FindTripFirst(trips: seq<Trip>, i: int, a: int, b: int)
    ensures var r := FindTrip(trips, i, a, b);
            && (r.None? <==> forall j :: 0 <= j < |trips| ==> !TripMatches(trips[j], i, a, b))
            && (r.Some? ==> exists k :: 0 <= k < |trips| && trips[k] == r.value
                                      && forall j :: 0 <= j < k ==> !TripMatches(trips[j], i, a, b))
  {
    TripIndexFirst(trips, 0, i, a, b);
  }

  /// Decimal text

  function DigitChar(d: nat): char
    requires d < 10
  {
    "0123456789"[d]
  }

  predicate IsDigit(ch: char) { '0' <= ch <= '9' }

  function DigitValue(ch: char): int {
    (ch as int) - ('0' as int)
  }

  /** Decimal digits of a natural number, most significant first. */
  function NatToString(n: nat): (s: string)
    ensures |s| >= 1
  {
    if n < 10 then [DigitChar(n)] else NatToString(n / 10) + [DigitChar(n % 10)]
  }

  /** `std::to_string` of an integer. */
  function IntToString(n: int): string {
    if n < 0 then "-" + NatToString(-n) else NatToString(n)
  }

  /** The value of a run of decimal digits. */
  function DigitsValue(ds: string): int {
    if ds == [] then 0 else DigitsValue(ds[..|ds| - 1]) * 10 + DigitValue(ds[|ds| - 1])
  }

  /** Length of the longest prefix made of decimal digits. */
  function DigitRun(s: string): (k: nat)
    ensures k <= |s|
  {
    if s != [] && IsDigit(s[0]) then 1 + DigitRun(s[1..]) else 0
  }

  predicate IsSpace(ch: char) {
    ch == ' ' || ch == '\t' || ch == '\n' || ch == '\r' || ch as int == 11 || ch as int == 12
  }

  /** What is left after leading white space. */
  function SkipSpace(s: string): (r: string)
    ensures |r| <= |s| && r == s[|s| - |r|..]
    ensures r != [] ==> !IsSpace(r[0])
  {
    if s != [] && IsSpace(s[0]) then SkipSpace(s[1..]) else s
  }

  /// `std::stoi` and its instantiations

  datatype StoiFailure = InvalidArgument | OutOfRange

  /** `std::stoi` in base 10: skips leading white space, reads an optional sign
      and the longest run of digits, ignores the rest; no digits is an invalid
      argument, a value outside `int` is out of range. */
  function Stoi(s: string): (r: Result<int, StoiFailure>)
    ensures r.Val? ==> INT_MIN <= r.value <= INT_MAX
  {
    ParseSigned(SkipSpace(s))
  }

  /** The part of `Stoi` after the white space: sign, digits, range check. */
  function ParseSigned(t: string): (r: Result<int, StoiFailure>)
    ensures r.Val? ==> INT_MIN <= r.value <= INT_MAX
  {
    var negative := t != [] && t[0] == '-';
    var u := if t != [] && (t[0] == '-' || t[0] == '+') then t[1..] else t;
    var k := DigitRun(u);
    if k == 0 then Err(InvalidArgument)
    else
      var magnitude: int := DigitsValue(u[..k]);
      InRange(if negative then -magnitude else magnitude)
  }

  function InRange(n: int): (r: Result<int, StoiFailure>)
    ensures r.Val? ==> INT_MIN <= r.value <= INT_MAX
  {
    if n < INT_MIN || INT_MAX < n then Err(OutOfRange) else Val(n)
  }

  /** `stoi<uint8_t>`: the parsed `int` stored in a `uint16_t`, then cast to `uint8_t`. */
  function StoiU8(s: string): (r: Result<u8, StoiFailure>)
    ensures r.Val? <==> Stoi(s).Val?
    ensures r.Val? ==> r.value as int == Stoi(s).value % 256
    ensures r.Err? ==> r.error == Stoi(s).error
  {
    match Stoi(s)
    case Err(e) => Err(e)
    case Val(n) =>
      var temp := n % 0x1_0000;
      ModOfMod(n);
      Val((temp % 256) as u8)
  }

  lemma ModOfMod(n: int)
    ensures (n % 0x1_0000) % 256 == n % 256
  {
    var q := n / 0x1_0000;
    assert n == q * 0x1_0000 + n % 0x1_0000;
    assert q * 0x1_0000 == (q * 256) * 256;
  }

  /** Three hundred does not fit in eight bits and wraps to 44. */
  lemma StoiU8Wraps()
    ensures StoiU8("300") == Val(44)
  {
    var s := "300";
    assert s[..2] == "30" && s[..2][..1] == "3" && s[..2][..1][..0] == "";
    assert DigitsValue("3") == 3;
    assert DigitsValue("30") == 30;
    assert DigitsValue(s) == 300;
    DigitRunOfDigits(s, "");
    assert s + "" == s && s[..3] == s;
    ParseUnsigned(s);
    SkipSpaceStops(s);
    assert Stoi(s) == Val(300);
    assert (300 % 0x1_0000) % 256 == 44;
  }

  lemma {:induction false} DigitsValueOfNat(n: nat)
    ensures DigitsValue(NatToString(n)) == n
  {
    var s := NatToString(n);
    if n >= 10 {
      DigitsValueOfNat(n / 10);
      assert s[..|s| - 1] == NatToString(n / 10);
      assert DigitValue(DigitChar(n % 10)) == n % 10;
    } else {
      assert DigitValue(DigitChar(n)) == n;
      assert s[..0] == [];
    }
  }

  lemma {:induction false} DigitRunOfDigits(s: string, rest: string)
    requires forall k :: 0 <= k < |s| ==> IsDigit(s[k])
    requires rest == [] || !IsDigit(rest[0])
    ensures DigitRun(s + rest) == |s|
    decreases |s|
  {
    if s != [] {
      assert (s + rest)[1..] == s[1..] + rest;
      DigitRunOfDigits(s[1..], rest);
    }
  }

  /** Reading back what `std::to_string` wrote gives the same `int`, whatever
      non-digit text follows it. */
  lemma StoiReadsIntToString(n: int, rest: string)
    requires INT_MIN <= n <= INT_MAX
    requires rest == [] || !IsDigit(rest[0])
    ensures Stoi(IntToString(n) + rest) == Val(n)
  {
    if n < 0 {
      StoiReadsNegativeText(-n, rest);
      NegativeText(n, rest);
    } else {
      StoiReadsNatText(n, rest);
    }
  }

  lemma NegativeText(n: int, rest: string)
    requires n < 0
    ensures IntToString(n) + rest == ['-'] + (NatToString(-n) + rest)
  {
    assert IntToString(n) == ['-'] + NatToString(-n);
  }

  lemma StoiReadsNatText(n: int, rest: string)
    requires 0 <= n <= INT_MAX
    requires rest == [] || !IsDigit(rest[0])
    ensures Stoi(NatToString(n) + rest) == Val(n)
  {
    var u := NatToString(n) + rest;
    var v := DigitsValue(u[..DigitRun(u)]);
    assert u != [] && IsDigit(u[0]) && v == n by {
      ReadNatToString(n, rest);
    }
    assert InRange(v) == Val(n);
    StoiReadsUnsigned(u);
  }

  lemma StoiReadsNegativeText(m: int, rest: string)
    requires 0 < m <= -INT_MIN
    requires rest == [] || !IsDigit(rest[0])
    ensures Stoi(['-'] + (NatToString(m) + rest)) == Val(-m)
  {
    ReadNatToString(m, rest);
    StoiReadsMagnitude(NatToString(m) + rest, m);
  }

  /** A minus sign, then digits worth `m`, read as `-m`. */
  lemma StoiReadsMagnitude(u: string, m: int)
    requires 0 < m <= -INT_MIN
    requires u != [] && IsDigit(u[0]) && DigitsValue(u[..DigitRun(u)]) == m
    ensures Stoi(['-'] + u) == Val(-m)
  {
    var t := ['-'] + u;
    assert t != [] && t[0] == '-' && t[1..] == u;
    ReadMinus(t, u, m);
  }

  /** Text that starts with a minus sign and then digits worth `m` reads as
      `-m`. */
  lemma ReadMinus(t: string, u: string, m: int)
    requires 0 < m <= -INT_MIN
    requires t != [] && t[0] == '-' && t[1..] == u
    requires u != [] && IsDigit(u[0]) && DigitsValue(u[..DigitRun(u)]) == m
    ensures Stoi(t) == Val(-m)
  {
    SkipSpaceStops(t);
    ParseNegative(t, u);
  }

  /** The digit run at the front of `NatToString(m) + rest` is worth `m`. */
  lemma ReadNatToString(m: nat, rest: string)
    requires rest == [] || !IsDigit(rest[0])
    ensures var u := NatToString(m) + rest;
            u != [] && IsDigit(u[0]) && DigitsValue(u[..DigitRun(u)]) == m
  {
    var ds := NatToString(m);
    NatToStringDigits(m);
    DigitsValueOfNat(m);
    ReadDigits(ds, rest);
  }

  /** Text that starts with a digit reads as the value of its digit run. */
  lemma StoiReadsUnsigned(u: string)
    requires u != [] && IsDigit(u[0])
    ensures Stoi(u) == InRange(DigitsValue(u[..DigitRun(u)]))
  {
    ParseUnsigned(u);
    SkipSpaceStops(u);
  }

  /** A minus sign before a digit reads as the negated value of the run. */
  lemma StoiReadsNegative(u: string)
    requires u != [] && IsDigit(u[0])
    ensures Stoi(['-'] + u) == InRange(-DigitsValue(u[..DigitRun(u)]))
  {
    var t := ['-'] + u;
    assert t != [] && t[0] == '-' && t[1..] == u;
    ParseNegative(t, u);
    SkipSpaceStops(t);
  }

  lemma ParseUnsigned(u: string)
    requires u != [] && IsDigit(u[0])
    ensures ParseSigned(u) == InRange(DigitsValue(u[..DigitRun(u)]))
  {
    assert DigitRun(u) != 0;
  }

  lemma ParseNegative(t: string, u: string)
    requires t != [] && t[0] == '-' && t[1..] == u
    requires u != [] && IsDigit(u[0])
    ensures ParseSigned(t) == InRange(-DigitsValue(u[..DigitRun(u)]))
  {
    assert DigitRun(u) != 0;
  }

  lemma SkipSpaceStops(s: string)
    requires s != [] && !IsSpace(s[0])
    ensures SkipSpace(s) == s
  {
  }

  lemma ReadDigits(ds: string, rest: string)
    requires |ds| >= 1 && forall k :: 0 <= k < |ds| ==> IsDigit(ds[k])
    requires rest == [] || !IsDigit(rest[0])
    ensures var u := ds + rest;
            u != [] && IsDigit(u[0]) && DigitsValue(u[..DigitRun(u)]) == DigitsValue(ds)
  {
    DigitRunOfDigits(ds, rest);
    assert (ds + rest)[..|ds|] == ds;
  }

  lemma {:induction false} NatToStringDigits(n: nat)
    ensures forall k :: 0 <= k < |NatToString(n)| ==> IsDigit(NatToString(n)[k])
  {
    if n >= 10 {
      NatToStringDigits(n / 10);
    }
  }
}
