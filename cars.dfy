/** The vehicle record (`Automobil`) with its engine (`Motor`), its two
    orderings and the vehicle file read by `ucitajAutomobile`. */
module Cars {
  import JavaText
  import opened Tokens

  /** `Motor`: fuel type and power, both fixed at construction. */
  datatype Engine = Engine(fuel: string, power: real)

  /** The outcome of `vozi`: done, or an `IllegalArgumentException`. */
  datatype DriveResult = Driven | IllegalArgument

  /** The values a vehicle holds, as one field group of the vehicle file gives them. */
  datatype CarRecord = CarRecord(model: string, year: int, engine: Engine, color: string, odometer: int)

  class Car {
    const model: string
    const year: int
    const engine: Engine
    var color: string
    /** Private in the source: read from outside only through `getKilometraza`
        (`Kilometers`) and changed only by `vozi` (`Drive`). */
    var odometer: int

    constructor (model: string, year: int, engine: Engine, color: string, odometer: int)
      ensures this.model == model && this.year == year && this.engine == engine
      ensures this.color == color && this.odometer == odometer
    {
      this.model := model;
      this.year := year;
      this.engine := engine;
      this.color := color;
      this.odometer := odometer;
    }

    /** `getKilometraza`. */
    function Kilometers(): int
      reads this
    {
      odometer
    }

    function Record(): CarRecord
      reads this
    {
      CarRecord(model, year, engine, color, odometer)
    }

    /** `vozi`: a non-positive distance is rejected and changes nothing;
        otherwise the distance is added to the odometer. */
    method Drive(distance: int) returns (r: DriveResult)
      modifies this`odometer
      ensures distance <= 0 ==> r == IllegalArgument && odometer == old(odometer)
      ensures distance > 0 ==> r == Driven && odometer == old(odometer) + distance
      ensures old(odometer) <= odometer
      ensures r == Driven ==> old(odometer) < odometer
      ensures color == old(color)
    {
      if distance <= 0 {
        return IllegalArgument;
      }
      odometer := odometer + distance;
      return Driven;
    }

    /** Natural order: the model name ignoring case (`Objects.compare` with
        `String.CASE_INSENSITIVE_ORDER`, which answers 0 for the same string
        without comparing), then the year. */
    function CompareTo(that: Car): int {
      var r := if model == that.model then 0 else JavaText.CompareIgnoreCase(model, that.model);
      if r == 0 then year - that.year else r
    }
  }

  /** `GodisteIKmKomparator`: the newer year first; for the same year, the
      lower odometer first. */
  function CompareYearThenOdometer(a1: Car, a2: Car): int
    reads a1, a2
  {
    var r := a2.year - a1.year;
    if r == 0 then a1.Kilometers() - a2.Kilometers() else r
  }

  // ---------------------------------------------------------------------------
  // Driving
  // ---------------------------------------------------------------------------

  /** The odometer keeps the constructor's value through a rejected drive and
      grows by exactly the distance of an accepted one. */
  method OdometerHistory(model: string, year: int, engine: Engine, color: string, km: int, d: int)
      returns (car: Car, before: int, after: int)
    ensures fresh(car)
    ensures before == km
    ensures d > 0 ==> after == km + d
    ensures d <= 0 ==> after == km
  {
    car := new Car(model, year, engine, color, km);
    var rejected := car.Drive(0);
    assert rejected == IllegalArgument;
    before := car.Kilometers();
    var _ := car.Drive(d);
    after := car.Kilometers();
  }

  // ---------------------------------------------------------------------------
  // The natural order
  // ---------------------------------------------------------------------------

  /** The model names decide when they differ ignoring case; otherwise the
      difference of the years does. */
  lemma CompareToModelThenYear(a: Car, b: Car)
    ensures JavaText.LowerAscii(a.model) != JavaText.LowerAscii(b.model) ==>
      a.CompareTo(b) == JavaText.CompareIgnoreCase(a.model, b.model) != 0
    ensures JavaText.LowerAscii(a.model) == JavaText.LowerAscii(b.model) ==>
      a.CompareTo(b) == a.year - b.year
  {
    JavaText.CompareIgnoreCaseZeroIff(a.model, b.model);
  }

  lemma CompareToAntisymmetric(a: Car, b: Car)
    ensures a.CompareTo(b) == -b.CompareTo(a)
    ensures a.CompareTo(a) == 0
  {
    JavaText.CompareIgnoreCaseAntisymmetric(a.model, b.model);
  }

  /** Equal under the natural order exactly when the models agree ignoring
      case and the years agree. */
  lemma CompareToZeroIff(a: Car, b: Car)
    ensures a.CompareTo(b) == 0 <==>
      JavaText.LowerAscii(a.model) == JavaText.LowerAscii(b.model) && a.year == b.year
  {
    JavaText.CompareIgnoreCaseZeroIff(a.model, b.model);
  }

  // ---------------------------------------------------------------------------
  // The year-then-odometer order
  // ---------------------------------------------------------------------------

  lemma YearThenOdometerRanks(a: Car, b: Car)
    ensures a.year > b.year ==> CompareYearThenOdometer(a, b) < 0
    ensures a.year < b.year ==> CompareYearThenOdometer(a, b) > 0
    ensures a.year == b.year ==>
      CompareYearThenOdometer(a, b) == a.Kilometers() - b.Kilometers()
    ensures CompareYearThenOdometer(a, b) == 0 <==>
      a.year == b.year && a.Kilometers() == b.Kilometers()
  {
  }

  lemma YearThenOdometerAntisymmetric(a: Car, b: Car)
    ensures CompareYearThenOdometer(a, b) == -CompareYearThenOdometer(b, a)
    ensures CompareYearThenOdometer(a, a) == 0
  {
  }

  /** The two vehicles of the sample file: "Yugo" comes before "Zastava 101"
      in the natural order, and the 1999 car before the 1985 one by year. */
  lemma SampleVehicles(a: Car, b: Car)
    requires a.model == "Zastava 101" && a.year == 1999 && a.Kilometers() == 231000
    requires b.model == "Yugo" && b.year == 1985 && b.Kilometers() == 500000
    ensures b.CompareTo(a) < 0 && a.CompareTo(b) > 0
    ensures CompareYearThenOdometer(a, b) < 0
  {
    assert b.CompareTo(a) == 'y' as int - 'z' as int;
    CompareToAntisymmetric(a, b);
  }

  // ---------------------------------------------------------------------------
  // The vehicle file
  // ---------------------------------------------------------------------------

  /** One field group of `ucitajAutomobile`: a line that is skipped, model,
      year, fuel, power, colour and odometer, read in turn; the first read
      that fails fails the group. */
  function ReadCar(ts: seq<Token>, pos: nat): (r: Result<Read<CarRecord>>)
    ensures r.Ok? ==> r.value.next == pos + 7
  {
    match ReadLine(ts, pos)
    case Err(e) => Err(e)
    case Ok(skipped) =>
    match ReadLine(ts, skipped.next)
    case Err(e) => Err(e)
    case Ok(model) =>
    match ReadInt(ts, model.next)
    case Err(e) => Err(e)
    case Ok(year) =>
    match ReadLine(ts, year.next)
    case Err(e) => Err(e)
    case Ok(fuel) =>
    match ReadDouble(ts, fuel.next)
    case Err(e) => Err(e)
    case Ok(power) =>
    match ReadLine(ts, power.next)
    case Err(e) => Err(e)
    case Ok(color) =>
    match ReadInt(ts, color.next)
    case Err(e) => Err(e)
    case Ok(km) =>
    Ok(Read(CarRecord(model.value, year.value, Engine(fuel.value, power.value), color.value, km.value), km.next))
  }

  /** The vehicles of a file; none when the file cannot be opened. */
  function LoadedCars(source: Option<seq<Token>>): (r: Result<seq<CarRecord>>)
    ensures source.None? ==> r == Err(Unavailable)
  {
    match source
    case None => Err(Unavailable)
    case Some(ts) => ReadCounted(ReadCar, ts)
  }

  /** What a vehicle file holds besides the values of a vehicle: each group's
      first line, which is skipped, and the line holding the power, which may
      be written as a decimal fraction or as an integer. */
  datatype GroupLines = GroupLines(skipped: string, power: Token)

  /** `t` is a line that `readDouble` reads as the power `p`. */
  predicate PowerLine(t: Token, p: real) {
    t == Dec(p) || (t.Num? && t.n as real == p)
  }

  /** Every group of `gs` writes the power of its vehicle of `cs`. */
  predicate PowerLines(cs: seq<CarRecord>, gs: seq<GroupLines>)
    requires |gs| == |cs|
  {
    forall k :: 0 <= k < |cs| ==> PowerLine(gs[k].power, cs[k].engine.power)
  }

  function CarFields(c: CarRecord, l: GroupLines): seq<Token> {
    [Text(l.skipped), Text(c.model), Num(c.year), Text(c.engine.fuel), l.power,
     Text(c.color), Num(c.odometer)]
  }

  /** A vehicle file for `cs`; the group of `cs[k]` has the lines `gs[k]`. */
  function CarsFile(cs: seq<CarRecord>, gs: seq<GroupLines>): seq<Token>
    requires |gs| == |cs|
  {
    [Num(|cs|)] + CarGroups(cs, gs)
  }

  function CarGroups(cs: seq<CarRecord>, gs: seq<GroupLines>): (r: seq<Token>)
    requires |gs| == |cs|
    ensures |r| == 7 * |cs|
  {
    if |cs| == 0 then [] else CarFields(cs[0], gs[0]) + CarGroups(cs[1..], gs[1..])
  }

  /** The `k`-th group of the layout holds the fields of `cs[k]`. */
  lemma {:induction false} CarGroupsAt(cs: seq<CarRecord>, gs: seq<GroupLines>, k: nat)
    requires |gs| == |cs| && k < |cs|
    ensures CarGroups(cs, gs)[7 * k..7 * k + 7] == CarFields(cs[k], gs[k])
    decreases k
  {
    var g := CarGroups(cs, gs);
    assert g == CarFields(cs[0], gs[0]) + CarGroups(cs[1..], gs[1..]);
    if k > 0 {
      CarGroupsAt(cs[1..], gs[1..], k - 1);
      assert g[7 * k..7 * k + 7] == CarGroups(cs[1..], gs[1..])[7 * (k - 1)..7 * (k - 1) + 7];
    } else {
      assert g[..7] == CarFields(cs[0], gs[0]);
    }
  }

  /** A group in the middle of a token sequence reads as its vehicle. */
  lemma ReadCarInMiddle(pre: seq<Token>, g: seq<Token>, post: seq<Token>, i: nat, c: CarRecord, l: GroupLines)
    requires i + 7 <= |g| && g[i..i + 7] == CarFields(c, l) && PowerLine(l.power, c.engine.power)
    ensures ReadCar(pre + g + post, |pre| + i) == Ok(Read(c, |pre| + i + 7))
  {
    var ts := pre + g + post;
    assert ts[|pre| + i..|pre| + i + 7] == g[i..i + 7];
    ReadCarFields(ts, |pre| + i, c, l);
  }

  lemma ReadCarFields(ts: seq<Token>, pos: nat, c: CarRecord, l: GroupLines)
    requires pos + 7 <= |ts| && ts[pos..pos + 7] == CarFields(c, l) && PowerLine(l.power, c.engine.power)
    ensures ReadCar(ts, pos) == Ok(Read(c, pos + 7))
  {
    var f := ts[pos..pos + 7];
    assert ts[pos] == f[0] && ts[pos + 1] == f[1] && ts[pos + 2] == f[2] && ts[pos + 3] == f[3];
    assert ts[pos + 4] == f[4] && ts[pos + 5] == f[5] && ts[pos + 6] == f[6];
  }

  /** A file laid out as `ucitajAutomobile` expects gives back its vehicles, in
      file order, whatever text the skipped lines hold and whichever way each
      power is written. */
  lemma CarsFileReads(cs: seq<CarRecord>, gs: seq<GroupLines>)
    requires |gs| == |cs| && PowerLines(cs, gs)
    ensures LoadedCars(Some(CarsFile(cs, gs))) == Ok(cs)
  {
    var g := CarGroups(cs, gs);
    forall k | 0 <= k < |cs| ensures g[7 * k..7 * k + 7] == CarFields(cs[k], gs[k]) {
      CarGroupsAt(cs, gs, k);
    }
    GroupsRead(|cs|, g, cs, gs, []);
    assert [Num(|cs|)] + g + [] == CarsFile(cs, gs);
  }

  /** `CarsFileReads` and `MalformedYearFails` for any token sequence `g` laid
      out as the groups of `cs`, when the year of the group after them is not
      a number: either the count ends the reading at `cs`, or the reading fails. */
  lemma GroupsRead(n: int, g: seq<Token>, cs: seq<CarRecord>, gs: seq<GroupLines>, rest: seq<Token>)
    requires |cs| <= n && |gs| == |cs| && PowerLines(cs, gs) && |g| == 7 * |cs|
    requires forall k :: 0 <= k < |cs| ==> g[7 * k..7 * k + 7] == CarFields(cs[k], gs[k])
    requires |cs| < n ==> 3 <= |rest| && rest[0].Text? && rest[1].Text? && !rest[2].Num?
    ensures ReadCounted(ReadCar, [Num(n)] + g + rest) == if |cs| == n then Ok(cs) else Err(WrongType)
  {
    var ts := [Num(n)] + g + rest;
    var ps := seq(|cs| + 1, k => 1 + 7 * k);
    forall k | 0 <= k < |cs| ensures ReadCar(ts, ps[k]) == Ok(Read(cs[k], ps[k + 1])) {
      ReadCarInMiddle([Num(n)], g, rest, 7 * k, cs[k], gs[k]);
    }
    assert ReadInt(ts, 0) == Ok(Read(n, 1));
    if |cs| == n {
      ReadGroupsOf(ReadCar, ts, ps, cs, []);
    } else {
      ReadCarWrongYear([Num(n)] + g, rest);
      ReadGroupsFailsAt(ReadCar, ts, ps, cs, n, []);
    }
  }

  /** A group whose year is not a number fails with a wrong type. */
  lemma ReadCarWrongYear(pre: seq<Token>, rest: seq<Token>)
    requires 3 <= |rest| && rest[0].Text? && rest[1].Text? && !rest[2].Num?
    ensures ReadCar(pre + rest, |pre|) == Err(WrongType)
  {
    var ts := pre + rest;
    assert ts[|pre|] == rest[0] && ts[|pre| + 1] == rest[1] && ts[|pre| + 2] == rest[2];
  }

  /** A year that is not a number, in any group before the count is reached,
      makes the whole read fail: no partial result. */
  lemma MalformedYearFails(n: int, cs: seq<CarRecord>, gs: seq<GroupLines>, skipped: string, model: string,
                           t: Token, rest: seq<Token>)
    requires |cs| < n && |gs| == |cs| && PowerLines(cs, gs) && !t.Num?
    ensures LoadedCars(Some([Num(n)] + CarGroups(cs, gs) + ([Text(skipped), Text(model), t] + rest))) == Err(WrongType)
  {
    var g := CarGroups(cs, gs);
    forall k | 0 <= k < |cs| ensures g[7 * k..7 * k + 7] == CarFields(cs[k], gs[k]) {
      CarGroupsAt(cs, gs, k);
    }
    GroupsRead(n, g, cs, gs, [Text(skipped), Text(model), t] + rest);
  }

  /** A vehicle group read moves the counted reading on past it. */
  lemma ReadCarsStep(ts: seq<Token>, pos: nat, n: nat, acc: seq<CarRecord>, c: CarRecord, next: nat)
    requires n > 0 && ReadCar(ts, pos) == Ok(Read(c, next))
    ensures ReadGroups(ReadCar, ts, pos, n, acc) == ReadGroups(ReadCar, ts, next, n - 1, acc + [c])
  {
    ReadGroupsStep(ReadCar, ts, pos, n, acc);
  }

  /** `ucitajAutomobile`: read the count, make an array of that size, and fill
      it with a new vehicle for each field group. */
  method LoadCars(source: Option<seq<Token>>) returns (r: Result<array<Car?>>)
    ensures r.Err? <==> LoadedCars(source).Err?
    ensures r.Err? ==> r.error == LoadedCars(source).error
    ensures r.Ok? ==> fresh(r.value) && r.value.Length == |LoadedCars(source).value|
    ensures r.Ok? ==> forall k :: 0 <= k < r.value.Length ==>
      r.value[k] != null && fresh(r.value[k]) && r.value[k].Record() == LoadedCars(source).value[k]
    ensures r.Ok? ==> forall j, k :: 0 <= j < k < r.value.Length ==> r.value[j] != r.value[k]
  {
    if source.None? {
      return Err(Unavailable);
    }
    var ts := source.value;
    var count := ReadInt(ts, 0);
    if count.Err? {
      return Err(count.error);
    }
    var br := count.value.value;
    if br < 0 {
      return Err(NegativeCount);
    }
    var rez := new Car?[br];
    var pos := count.value.next;
    ghost var read: seq<CarRecord> := [];
    for i := 0 to br
      invariant |read| == i
      invariant ReadGroups(ReadCar, ts, pos, br - i, read) == ReadCounted(ReadCar, ts)
      invariant forall k :: 0 <= k < i ==>
        rez[k] != null && fresh(rez[k]) && rez[k].Record() == read[k]
      invariant forall j, k :: 0 <= j < k < i ==> rez[j] != rez[k]
    {
      var g := ReadCar(ts, pos);
      if g.Err? {
        return Err(g.error);
      }
      var c := g.value.value;
      ReadCarsStep(ts, pos, br - i, read, c, g.value.next);
      var car := new Car(c.model, c.year, c.engine, c.color, c.odometer);
      rez[i] := car;
      read := read + [c];
      pos := g.value.next;
    }
    return Ok(rez);
  }
}
